/**
  The text of the CSV export (`exportCSV`, the same in both editions): a byte-order
  mark, the header joined by ";", then one line per parsed row whose cells
  are each wrapped in double quotes with every inner quote doubled. The
  cell formatting (`currencyBR`, `percent2`, `formatDateBR`) is given as
  parameters; the Blob download is not part of the model.
 */
module Csv {
  import opened Wrappers
  import opened Numbers
  import opened Text
  import opened Rows
  import opened Decimal
  import opened Dates
  import opened Engine
  import Fixtures

  const Sep: char := ';'

  const Header: seq<string> := [
    "Empreendimento", "Unidade", "Valor do imóvel na aquisição (R$)", "Aquisição (Data de aquisição)",
    "Valor atual (R$)", "% de valorização", "Lucro líquido ao mês (R$/mês)", "% Lucro líquido"]

  /** `"${String(s).replaceAll('"', '""')}"` */
  function Quote(s: string): (q: string)
    ensures |q| >= 2 && q[0] == '"' && q[|q| - 1] == '"'
    ensures '"' !in s ==> q == "\"" + s + "\""
  {
    assert '"' !in s ==> ReplaceAll(s, '"', "\"\"") == s by {
      if '"' !in s { NoMatchUnchanged(s, '"', "\"\""); }
    }
    "\"" + ReplaceAll(s, '"', "\"\"") + "\""
  }

  /** `l.map(quote).join(";")` */
  function Line(cells: seq<string>): (l: string)
    ensures cells == [] ==> l == ""
    ensures |cells| >= 1 ==> |l| >= |Quote(cells[0])| && l[..|Quote(cells[0])|] == Quote(cells[0])
  {
    Join(seq(|cells|, i requires 0 <= i < |cells| => Quote(cells[i])), [Sep])
  }

  /** The cells of one parsed row, formatted by the given `currencyBR`, `percent2` and `formatDateBR`. */
  function Record(p: ParsedRow, money: Num -> string, percent: Num -> string, date: string -> string): (cells: seq<string>)
    ensures |cells| == |Header|
  {
    [p.empreendimento, p.unidade, money(p.valorAquisicao),
     if p.dataAquisicao != "" then date(p.dataAquisicao) else "",
     money(p.valorAtual), percent(p.valorizacaoPct), money(p.lucroMes), percent(p.lucroPctMes)]
  }

  /** `[header.join(";"), ...lines].join("\n")` */
  function Document(records: seq<seq<string>>): (d: string)
    ensures records == [] ==> d == Join(Header, [Sep])
    ensures |d| >= |Join(Header, [Sep])| && d[..|Join(Header, [Sep])|] == Join(Header, [Sep])
  {
    Join([Join(Header, [Sep])] + seq(|records|, i requires 0 <= i < |records| => Line(records[i])), "\n")
  }

  /** The text handed to the Blob: a byte-order mark and the document. */
  function Export(ps: seq<ParsedRow>, money: Num -> string, percent: Num -> string, date: string -> string): (text: string)
    ensures |text| >= 1 && text[0] == '\U{FEFF}'
    ensures ps == [] ==> text == "\U{FEFF}" + Join(Header, [Sep])
  {
    "\U{FEFF}" + Document(seq(|ps|, i requires 0 <= i < |ps| => Record(ps[i], money, percent, date)))
  }

  // ---------------------------------------------------------------- the percent cells

  /** What `percent2` shows for a value that is not a finite number: an en dash. */
  const Dash := "\U{2013}"

  predicate EndsInPercent(s: string) { |s| >= 1 && s[|s| - 1] == '%' }

  /**
    What the export relies on of `percent2`, whatever its rounding: `NaN`
    is shown as the dash, and any number as text ending in `%`.
   */
  ghost predicate Percent2Shape(percent: Num -> string)
  {
    percent(NaN) == Dash && forall x :: EndsInPercent(percent(Fin(x)))
  }

  /**
    A row's two percentage cells show the dash exactly when its
    acquisition value is not a positive number or its current value is no
    number, so every counted row exports two percentages.
   */
  lemma PercentCells(r: Row, rep: Option<int>, ed: Edition, money: Num -> string, percent: Num -> string, date: string -> string)
    requires Percent2Shape(percent)
    ensures var p := ParseRow(r, rep, ed);
      var cells := Record(p, money, percent, date);
      var priced := Gt(p.valorAquisicao, 0.0) && p.valorAtual.Fin?;
      (cells[5] == Dash <==> !priced) && (cells[7] == Dash <==> !priced)
  {
    var va, vc := ToDecimal(Some(r.valorAquisicao)), ToDecimal(Some(r.valorAtual));
    EvaluatedPercentCells(r, va, vc, Timestamp(r.dataAquisicao), rep, ed, money, percent, date);
  }

  lemma EvaluatedPercentCells(r: Row, va: Num, vc: Num, aq: Option<int>, rep: Option<int>, ed: Edition,
                              money: Num -> string, percent: Num -> string, date: string -> string)
    requires Percent2Shape(percent)
    ensures var cells := Record(Evaluate(r, va, vc, aq, rep, ed), money, percent, date);
      var priced := Gt(va, 0.0) && vc.Fin?;
      (cells[5] == Dash <==> !priced) && (cells[7] == Dash <==> !priced)
  {
    var p := Evaluate(r, va, vc, aq, rep, ed);
    Figures(r, va, vc, aq, rep, ed);
    PercentCellOf(p.valorizacaoPct, percent);
    PercentCellOf(p.lucroPctMes, percent);
  }

  /** Under `percent2`'s shape, a cell shows the dash exactly for `NaN`. */
  lemma PercentCellOf(n: Num, percent: Num -> string)
    requires Percent2Shape(percent)
    ensures percent(n) == Dash <==> !n.Fin?
  {
    assert !EndsInPercent(Dash);
    if n.Fin? {
      assert EndsInPercent(percent(Fin(n.v)));
    }
  }

  /** Case AZ-01, a zero acquisition value, exports the dash in both percentage cells. */
  lemma EdgeZeroAcquisitionCells(ed: Edition, reportDate: string, money: Num -> string, percent: Num -> string, date: string -> string)
    requires reportDate != "" && Percent2Shape(percent)
    ensures var cells := Record(Fixtures.Evaluated(Fixtures.ZeroAcquisitionCase(ed, reportDate), reportDate, ed), money, percent, date);
      cells[5] == Dash && cells[7] == Dash
  {
    var r := Stamp(Fixtures.ZeroAcquisitionCase(ed, reportDate), 0);
    Fixtures.ReadZero(ed, r.valorAquisicao, 0);
    PercentCells(r, Timestamp(reportDate), ed, money, percent, date);
  }

  /** Case TX-01 of the older edition, whose acquisition value is no number, exports the dash too. */
  lemma EdgeInvalidTextCells(reportDate: string, money: Num -> string, percent: Num -> string, date: string -> string)
    requires Percent2Shape(percent)
    ensures var cells := Record(Fixtures.Evaluated(Fixtures.InvalidTextCase(LegacyApp), reportDate, LegacyApp), money, percent, date);
      cells[5] == Dash && cells[7] == Dash
  {
    var r := Stamp(Fixtures.InvalidTextCase(LegacyApp), 0);
    Fixtures.ReadUmValor(r.valorAquisicao);
    PercentCells(r, Timestamp(reportDate), LegacyApp, money, percent, date);
  }

  // ---------------------------------------------------------------- reading a line back

  /**
    Reads the inside of a quoted cell, just after its opening quote, up to
    its closing quote: `""` stands for one quote. Gives the cell and what
    follows the closing quote.
   */
  function ReadQuoted(t: string): (res: Option<(string, string)>)
    ensures res.Some? ==> |res.value.1| < |t|
  {
    if t == [] then None
    else if t[0] == '"' then
      if |t| >= 2 && t[1] == '"' then
        match ReadQuoted(t[2..])
        case None => None
        case Some((c, rest)) => Some(("\"" + c, rest))
      else Some(([], t[1..]))
    else
      match ReadQuoted(t[1..])
      case None => None
      case Some((c, rest)) => Some(([t[0]] + c, rest))
  }

  /** Reads a line of quoted cells separated by ";". */
  function ParseLine(t: string): Option<seq<string>>
    decreases |t|
  {
    if t == [] || t[0] != '"' then None
    else
      match ReadQuoted(t[1..])
      case None => None
      case Some((cell, rest)) =>
        if rest == [] then Some([cell])
        else if rest[0] != Sep then None
        else
          match ParseLine(rest[1..])
          case None => None
          case Some(cells) => Some([cell] + cells)
  }

  // ---------------------------------------------------------------- properties

  /** An escaped cell followed by the closing quote reads back as the cell. */
  lemma {:induction false} ReadEscaped(s: string, rest: string)
    requires rest == [] || rest[0] != '"'
    ensures ReadQuoted(ReplaceAll(s, '"', "\"\"") + "\"" + rest) == Some((s, rest))
  {
    var t := ReplaceAll(s, '"', "\"\"") + "\"" + rest;
    if s == [] {
      assert t == "\"" + rest;
      assert t[0] == '"' && t[1..] == rest;
    } else {
      ReadEscaped(s[1..], rest);
      EscapedCons(s, rest);
    }
  }

  /** Reading an escaped cell one character (or one doubled quote) at a time. */
  lemma EscapedCons(s: string, rest: string)
    requires s != []
    requires ReadQuoted(ReplaceAll(s[1..], '"', "\"\"") + "\"" + rest) == Some((s[1..], rest))
    ensures ReadQuoted(ReplaceAll(s, '"', "\"\"") + "\"" + rest) == Some((s, rest))
  {
    var t := ReplaceAll(s, '"', "\"\"") + "\"" + rest;
    var u := s[1..];
    var tail := ReplaceAll(u, '"', "\"\"") + "\"" + rest;
    if s[0] == '"' {
      assert t == "\"\"" + tail;
      assert t[0] == '"' && t[1] == '"' && t[2..] == tail;
      assert "\"" + u == s;
    } else {
      assert t == [s[0]] + tail;
      assert t[0] == s[0] && t[1..] == tail;
      assert [s[0]] + u == s;
    }
  }

  /** A quoted line reads back as its cells, whatever quotes and separators they hold. */
  lemma {:induction false} LineRoundTrip(cells: seq<string>)
    requires |cells| >= 1
    ensures ParseLine(Line(cells)) == Some(cells)
  {
    if |cells| == 1 {
      assert Line(cells) == Quote(cells[0]) + [];
      ReadCell(cells[0], []);
      assert cells == [cells[0]];
    } else {
      LineRoundTrip(cells[1..]);
      LineStep(cells);
    }
  }

  /** The first cell of a line is read off in front of the cells that follow it. */
  lemma LineStep(cells: seq<string>)
    requires |cells| >= 2 && ParseLine(Line(cells[1..])) == Some(cells[1..])
    ensures ParseLine(Line(cells)) == Some(cells)
  {
    var tail := cells[1..];
    var rest := [Sep] + Line(tail);
    LineCons(cells);
    assert Line(cells) == Quote(cells[0]) + rest;
    ReadCell(cells[0], rest);
    assert rest[1..] == Line(tail);
    assert [cells[0]] + tail == cells;
  }

  /** A line of two or more cells is the first quoted cell, the separator and the line of the others. */
  lemma LineCons(cells: seq<string>)
    requires |cells| >= 2
    ensures Line(cells) == Quote(cells[0]) + [Sep] + Line(cells[1..])
  {
    var qs := seq(|cells|, i requires 0 <= i < |cells| => Quote(cells[i]));
    var tail := cells[1..];
    var qt := seq(|tail|, i requires 0 <= i < |tail| => Quote(tail[i]));
    assert qs[1..] == qt;
  }

  /** A quoted cell followed by the end of the line, or by a separator, is read as that cell. */
  lemma ReadCell(cell: string, rest: string)
    requires rest == [] || rest[0] == Sep
    ensures ParseLine(Quote(cell) + rest)
      == if rest == [] then Some([cell])
         else match ParseLine(rest[1..])
              case None => None
              case Some(cs) => Some([cell] + cs)
  {
    var e := ReplaceAll(cell, '"', "\"\"");
    var t := Quote(cell) + rest;
    assert t == "\"" + (e + "\"" + rest);
    ReadEscaped(cell, rest);
    assert t[0] == '"' && t[1..] == e + "\"" + rest;
  }

  /** Quoting keeps line breaks out of a cell that has none. */
  lemma QuoteNoBreak(s: string)
    requires '\n' !in s
    ensures '\n' !in Quote(s)
  {
    var e := ReplaceAll(s, '"', "\"\"");
    assert forall i :: 0 <= i < |e| ==> e[i] in s || e[i] in "\"\"";
  }

  lemma {:induction false} JoinNoBreak(parts: seq<string>, sep: string)
    requires '\n' !in sep && forall k :: 0 <= k < |parts| ==> '\n' !in parts[k]
    ensures '\n' !in Join(parts, sep)
  {
    if |parts| > 1 {
      JoinNoBreak(parts[1..], sep);
    }
  }

  /** A line of cells without line breaks has none. */
  lemma LineNoBreak(r: seq<string>)
    requires forall k :: 0 <= k < |r| ==> '\n' !in r[k]
    ensures '\n' !in Line(r)
  {
    var qs := seq(|r|, k requires 0 <= k < |r| => Quote(r[k]));
    forall k | 0 <= k < |r| ensures '\n' !in qs[k] {
      QuoteNoBreak(r[k]);
    }
    JoinNoBreak(qs, [Sep]);
  }

  /**
    With no line break in any cell, the document splits at its line breaks
    into the header line and one line per record, in order, and every
    record's line reads back as that record's cells.
   */
  lemma DocumentRoundTrip(records: seq<seq<string>>)
    requires forall i :: 0 <= i < |records| ==> |records[i]| >= 1
    requires forall i, k :: 0 <= i < |records| && 0 <= k < |records[i]| ==> '\n' !in records[i][k]
    ensures var lines := Split(Document(records), '\n');
      |lines| == |records| + 1 && lines[0] == Join(Header, [Sep])
      && forall i :: 0 <= i < |records| ==> ParseLine(lines[i + 1]) == Some(records[i])
  {
    HeaderNoBreak();
    LinesRoundTrip(Join(Header, [Sep]), records);
  }

  /** The header line holds no line break. */
  lemma HeaderNoBreak()
    ensures '\n' !in Join(Header, [Sep])
  {
    forall k | 0 <= k < |Header| ensures '\n' !in Header[k] {
      var h := Header[k];
      assert forall i :: 0 <= i < |h| ==> h[i] != '\n';
    }
    JoinNoBreak(Header, [Sep]);
  }

  /** A first line without breaks, then the lines of the records, split back into those lines. */
  lemma LinesRoundTrip(head: string, records: seq<seq<string>>)
    requires '\n' !in head
    requires forall i :: 0 <= i < |records| ==> |records[i]| >= 1
    requires forall i, k :: 0 <= i < |records| && 0 <= k < |records[i]| ==> '\n' !in records[i][k]
    ensures var lines := Split(Join([head] + seq(|records|, i requires 0 <= i < |records| => Line(records[i])), "\n"), '\n');
      |lines| == |records| + 1 && lines[0] == head
      && forall i :: 0 <= i < |records| ==> ParseLine(lines[i + 1]) == Some(records[i])
  {
    var ls := seq(|records|, i requires 0 <= i < |records| => Line(records[i]));
    var parts := [head] + ls;
    forall k | 0 <= k < |parts| ensures '\n' !in parts[k] {
      if k > 0 {
        assert parts[k] == Line(records[k - 1]);
        LineNoBreak(records[k - 1]);
      }
    }
    SplitJoin(parts, '\n');
    forall i | 0 <= i < |records| ensures ParseLine(parts[i + 1]) == Some(records[i]) {
      assert parts[i + 1] == Line(records[i]);
      LineRoundTrip(records[i]);
    }
  }

  /**
    The export holds the byte-order mark, then the header line, then one
    line per parsed row that reads back as that row's eight formatted cells.
   */
  lemma ExportRoundTrip(ps: seq<ParsedRow>, money: Num -> string, percent: Num -> string, date: string -> string)
    requires forall i, k :: 0 <= i < |ps| && 0 <= k < |Header| ==> '\n' !in Record(ps[i], money, percent, date)[k]
    ensures var text := Export(ps, money, percent, date);
      |text| >= 1 && text[0] == '\U{FEFF}'
      && var lines := Split(text[1..], '\n');
      |lines| == |ps| + 1 && lines[0] == Join(Header, [Sep])
      && forall i :: 0 <= i < |ps| ==> ParseLine(lines[i + 1]) == Some(Record(ps[i], money, percent, date))
  {
    var records := seq(|ps|, i requires 0 <= i < |ps| => Record(ps[i], money, percent, date));
    assert forall i :: 0 <= i < |ps| ==> records[i] == Record(ps[i], money, percent, date);
    assert forall i :: 0 <= i < |records| ==> |records[i]| >= 1;
    DocumentRoundTrip(records);
    var text := Export(ps, money, percent, date);
    assert text[1..] == Document(records);
  }
}
