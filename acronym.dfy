/**
  `acronymFromEmp`: the short label of a development ("Vértice Barigui"
  becomes "VB") that the totals print in front of each unit number.
 */
module Acronym {
  import opened Text

  /** JavaScript's white space and line terminators, the characters `trim` removes. */
  predicate IsJsSpace(c: char)
  {
    c == '\t' || c == '\n' || c == '\U{B}' || c == '\U{C}' || c == '\r' || c == ' '
    || c == '\U{A0}' || c == '\U{1680}' || ('\U{2000}' <= c <= '\U{200A}')
    || c == '\U{2028}' || c == '\U{2029}' || c == '\U{202F}' || c == '\U{205F}'
    || c == '\U{3000}' || c == '\U{FEFF}'
  }

  predicate AllSpace(s: string) { forall i :: 0 <= i < |s| ==> IsJsSpace(s[i]) }

  function TrimStart(s: string): (t: string)
    ensures t == [] || !IsJsSpace(t[0])
  {
    if s != [] && IsJsSpace(s[0]) then TrimStart(s[1..]) else s
  }

  function TrimEnd(s: string): (t: string)
    ensures t == [] || !IsJsSpace(t[|t| - 1])
  {
    if s != [] && IsJsSpace(s[|s| - 1]) then TrimEnd(s[..|s| - 1]) else s
  }

  /** `s.trim()` */
  function Trim(s: string): string { TrimEnd(TrimStart(s)) }

  /** ASCII lower case: the only characters that lower-case to a character of "hol 1480" besides themselves. */
  function LowerAscii(c: char): char
  {
    if 'A' <= c <= 'Z' then (c as int + 32) as char else c
  }

  /** `s.toLowerCase() === "hol 1480"` */
  predicate IsHol(s: string)
  {
    |s| == 8 && forall i :: 0 <= i < 8 ==> LowerAscii(s[i]) == "hol 1480"[i]
  }

  /**
    `c.toUpperCase()` for the Latin-1 range: letters move by 32, except
    'ß', which becomes "SS", 'ÿ' and 'µ', whose capitals lie outside
    Latin-1. Characters beyond Latin-1 are kept as they are.
   */
  function Upper(c: char): (u: string)
    ensures |u| >= 1
  {
    if 'a' <= c <= 'z' then [(c as int - 32) as char]
    else if c == '\U{DF}' then "SS"
    else if c == '\U{FF}' then "\U{178}"
    else if c == '\U{B5}' then "\U{39C}"
    else if '\U{E0}' <= c <= '\U{FE}' && c != '\U{F7}' then [(c as int - 32) as char]
    else [c]
  }

  /** `s.split(" ").filter(Boolean)`: the non-empty pieces between spaces. */
  function Words(s: string): (ws: seq<string>)
    ensures forall k :: 0 <= k < |ws| ==> ws[k] != [] && ' ' !in ws[k]
  {
    NonEmpty(Split(s, ' '))
  }

  function NonEmpty(parts: seq<string>): (ws: seq<string>)
    requires forall k :: 0 <= k < |parts| ==> ' ' !in parts[k]
    ensures forall k :: 0 <= k < |ws| ==> ws[k] != [] && ' ' !in ws[k]
  {
    if parts == [] then []
    else (if parts[0] == [] then [] else [parts[0]]) + NonEmpty(parts[1..])
  }

  /** `ws.map(w => w[0].toUpperCase()).join("")` */
  function Initials(ws: seq<string>): (s: string)
    requires forall k :: 0 <= k < |ws| ==> ws[k] != []
    ensures |s| >= |ws|
  {
    if ws == [] then "" else Upper(ws[0][0]) + Initials(ws[1..])
  }

  lemma TrimNothing()
    ensures Trim("") == ""
  {
  }

  /**
    `acronymFromEmp(empreendimento)`: empty for an empty name; otherwise,
    unless it is the "hol 1480" exception, empty exactly when the trimmed
    name has no word, and at least one character per word.
   */
  function AcronymFromEmp(emp: string): (a: string)
    ensures emp == "" ==> a == ""
    ensures !IsHol(Trim(emp)) ==> (a == "" <==> Words(Trim(emp)) == [])
    ensures !IsHol(Trim(emp)) ==> |a| >= |Words(Trim(emp))|
  {
    if emp == "" then
      TrimNothing();
      WordsOfNothing();
      ""
    else
      var t := Trim(emp);
      if IsHol(t) then "Hol" else Initials(Words(t))
  }

  // ---------------------------------------------------------------- trimming

  lemma {:induction false} TrimStartSpaces(p: string, x: string)
    requires AllSpace(p)
    ensures TrimStart(p + x) == TrimStart(x)
  {
    if p != [] {
      assert (p + x)[1..] == p[1..] + x;
      TrimStartSpaces(p[1..], x);
    } else {
      assert p + x == x;
    }
  }

  lemma {:induction false} TrimEndSpaces(x: string, q: string)
    requires AllSpace(q)
    ensures TrimEnd(x + q) == TrimEnd(x)
  {
    if q != [] {
      assert (x + q)[..|x + q| - 1] == x + q[..|q| - 1];
      TrimEndSpaces(x, q[..|q| - 1]);
    } else {
      assert x + q == x;
    }
  }

  lemma {:induction false} TrimStartAllSpace(s: string)
    requires AllSpace(s)
    ensures TrimStart(s) == []
  {
    if s != [] {
      TrimStartAllSpace(s[1..]);
    }
  }

  lemma {:induction false} TrimStartAppend(e: string, q: string)
    requires TrimStart(e) != []
    ensures TrimStart(e + q) == TrimStart(e) + q
  {
    if IsJsSpace(e[0]) {
      assert (e + q)[1..] == e[1..] + q;
      TrimStartAppend(e[1..], q);
    }
  }

  /** White space around a name does not change what `trim` leaves. */
  lemma TrimPadding(p: string, e: string, q: string)
    requires AllSpace(p) && AllSpace(q)
    ensures Trim(p + e + q) == Trim(e)
  {
    assert p + e + q == p + (e + q);
    TrimStartSpaces(p, e + q);
    if TrimStart(e) == [] {
      if !AllSpace(e) {
        var i :| 0 <= i < |e| && !IsJsSpace(e[i]);
        NotAllSpaceKept(e, i);
      }
      assert AllSpace(e + q);
      TrimStartAllSpace(e + q);
    } else {
      TrimStartAppend(e, q);
      TrimEndSpaces(TrimStart(e), q);
    }
  }

  lemma {:induction false} NotAllSpaceKept(e: string, i: nat)
    requires i < |e| && !IsJsSpace(e[i])
    ensures TrimStart(e) != []
  {
    if IsJsSpace(e[0]) {
      NotAllSpaceKept(e[1..], i - 1);
    }
  }

  // ---------------------------------------------------------------- acronyms

  lemma {:induction false} NonEmptyKeeps(ws: seq<string>)
    requires forall k :: 0 <= k < |ws| ==> ws[k] != [] && ' ' !in ws[k]
    ensures NonEmpty(ws) == ws
  {
    if ws != [] {
      NonEmptyKeeps(ws[1..]);
    }
  }

  /** Words joined by single spaces split back into those words. */
  lemma WordsOfJoin(ws: seq<string>)
    requires |ws| >= 1
    requires forall k :: 0 <= k < |ws| ==> ws[k] != [] && ' ' !in ws[k]
    ensures Words(Join(ws, " ")) == ws
  {
    SplitJoin(ws, ' ');
    NonEmptyKeeps(ws);
  }

  lemma {:induction false} JoinEnds(ws: seq<string>)
    requires |ws| >= 1
    requires forall k :: 0 <= k < |ws| ==> ws[k] != []
    ensures var s := Join(ws, " "); |s| > 0 && s[0] == ws[0][0] && s[|s| - 1] == ws[|ws| - 1][|ws[|ws| - 1]| - 1]
  {
    if |ws| > 1 {
      var tail := ws[1..];
      JoinEnds(tail);
      var r := Join(tail, " ");
      var s := Join(ws, " ");
      assert s == ws[0] + " " + r;
      assert s[0] == ws[0][0];
      assert s[|s| - 1] == r[|r| - 1];
      assert tail[|tail| - 1] == ws[|ws| - 1];
    }
  }

  /**
    The acronym of a name made of words separated by single spaces is the
    sequence of the words' capitalised initials (unless the name is the
    "Hol 1480" exception).
   */
  lemma AcronymOfWords(ws: seq<string>)
    requires |ws| >= 1
    requires forall k :: 0 <= k < |ws| ==> ws[k] != [] && ' ' !in ws[k]
    requires !IsJsSpace(ws[0][0]) && !IsJsSpace(ws[|ws| - 1][|ws[|ws| - 1]| - 1])
    requires !IsHol(Join(ws, " "))
    ensures AcronymFromEmp(Join(ws, " ")) == Initials(ws)
  {
    JoinEnds(ws);
    WordsOfJoin(ws);
  }

  /** `n` spaces. */
  function Spaces(n: nat): (s: string)
    ensures |s| == n && forall i :: 0 <= i < n ==> s[i] == ' '
  {
    if n == 0 then "" else " " + Spaces(n - 1)
  }

  lemma {:induction false} NonEmptyAppend(x: seq<string>, y: seq<string>)
    requires forall k :: 0 <= k < |x| ==> ' ' !in x[k]
    requires forall k :: 0 <= k < |y| ==> ' ' !in y[k]
    ensures NonEmpty(x + y) == NonEmpty(x) + NonEmpty(y)
  {
    if x == [] {
      assert x + y == y;
    } else {
      assert (x + y)[0] == x[0] && (x + y)[1..] == x[1..] + y;
      NonEmptyAppend(x[1..], y);
    }
  }

  /** The words on either side of a space are the words of each side. */
  lemma WordsAround(a: string, b: string)
    ensures Words(a + " " + b) == Words(a) + Words(b)
  {
    SplitAround(a, ' ', b);
    NonEmptyAppend(Split(a, ' '), Split(b, ' '));
  }

  lemma WordsOfNothing()
    ensures Words("") == []
  {
    assert Split("", ' ') == [""];
  }

  /** Spaces in front of a text add no word. */
  lemma {:induction false} WordsAfterSpaces(n: nat, b: string)
    ensures Words(Spaces(n) + b) == Words(b)
  {
    if n > 0 {
      var rest := Spaces(n - 1) + b;
      assert Spaces(n) + b == "" + " " + rest;
      WordsAround("", rest);
      WordsOfNothing();
      assert Words("") + Words(rest) == Words(rest);
      WordsAfterSpaces(n - 1, b);
    } else {
      assert Spaces(n) + b == b;
    }
  }

  /**
    `filter(Boolean)` drops the empty pieces that a run of spaces leaves:
    any positive number of spaces between two texts separates the same words.
   */
  lemma {:induction false} WordsAcrossSpaces(a: string, n: nat, b: string)
    requires n >= 1
    ensures Words(a + Spaces(n) + b) == Words(a) + Words(b)
  {
    assert a + Spaces(n) + b == a + " " + (Spaces(n - 1) + b);
    WordsAround(a, Spaces(n - 1) + b);
    WordsAfterSpaces(n - 1, b);
  }

  lemma TrimUnpadded(s: string)
    requires s != [] && !IsJsSpace(s[0]) && !IsJsSpace(s[|s| - 1])
    ensures Trim(s) == s
  {
  }

  /** "hol 1480" has no two spaces in a row. */
  lemma NotHolWithDoubleSpace(s: string, i: nat)
    requires i + 1 < |s| && s[i] == ' ' && s[i + 1] == ' '
    ensures !IsHol(s)
  {
  }

  /**
    A run of spaces between the words of a name labels it like a single
    space does, unless the single-spaced name is the "hol 1480" exception,
    which the run of spaces no longer matches.
   */
  lemma AcronymAcrossSpaces(a: string, n: nat, b: string)
    requires n >= 1 && a != [] && b != [] && !IsJsSpace(a[0]) && !IsJsSpace(b[|b| - 1])
    requires !IsHol(a + " " + b)
    ensures AcronymFromEmp(a + Spaces(n) + b) == AcronymFromEmp(a + " " + b)
  {
    var s, s1 := a + Spaces(n) + b, a + " " + b;
    assert s[0] == a[0] && s[|s| - 1] == b[|b| - 1];
    assert s1[0] == a[0] && s1[|s1| - 1] == b[|b| - 1];
    TrimUnpadded(s);
    TrimUnpadded(s1);
    if n >= 2 {
      assert s[|a|] == ' ' && s[|a| + 1] == ' ';
      NotHolWithDoubleSpace(s, |a|);
    }
    WordsAcrossSpaces(a, n, b);
    WordsAcrossSpaces(a, 1, b);
    assert Spaces(1) == " ";
  }

  /** White space around a name does not change its acronym. */
  lemma AcronymIgnoresPadding(p: string, e: string, q: string)
    requires AllSpace(p) && AllSpace(q)
    ensures AcronymFromEmp(p + e + q) == AcronymFromEmp(e)
  {
    TrimPadding(p, e, q);
    if e == [] {
      assert Split("", ' ') == [""];
      assert Words("") == [];
    }
  }

  /** "Hol 1480" is labelled "Hol" whatever its case and surrounding white space. */
  lemma HolException(p: string, e: string, q: string)
    requires AllSpace(p) && AllSpace(q) && IsHol(e)
    ensures AcronymFromEmp(p + e + q) == "Hol"
  {
    TrimPadding(p, e, q);
  }

  /** A two-word name is labelled with the capitals of its two initials. */
  lemma TwoWords(a: string, b: string)
    requires a != [] && b != [] && ' ' !in a && ' ' !in b
    requires !IsJsSpace(a[0]) && !IsJsSpace(b[|b| - 1]) && !IsHol(a + " " + b)
    ensures AcronymFromEmp(a + " " + b) == Upper(a[0]) + Upper(b[0])
  {
    var ws := [a, b];
    assert Join(ws[1..], " ") == b;
    assert Join(ws, " ") == a + " " + b;
    AcronymOfWords(ws);
    assert Initials(ws[1..][1..]) == "";
  }

  /** Labels of some of the development names the editor offers. */
  lemma VerticeBariguiLabel(name: string)
    requires name == "Vértice Barigui"
    ensures AcronymFromEmp(name) == "VB"
  {
    var a, b := "Vértice", "Barigui";
    assert name == a + " " + b;
    VerticeBariguiWords(a, b);
    TwoWords(a, b);
  }

  lemma VerticeBariguiWords(a: string, b: string)
    requires a == "Vértice" && b == "Barigui"
    ensures a != [] && b != [] && ' ' !in a && ' ' !in b
    ensures !IsJsSpace(a[0]) && !IsJsSpace(b[|b| - 1]) && !IsHol(a + " " + b)
    ensures Upper(a[0]) + Upper(b[0]) == "VB"
  {
    assert |a + " " + b| == 15;
  }

  lemma HolLabel(name: string)
    requires name == "Hol 1480"
    ensures AcronymFromEmp(name) == "Hol"
  {
    HolException("", name, "");
    assert "" + name + "" == name;
  }
}
