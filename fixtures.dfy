/**
  The rows the "samples" and "edge cases" buttons load, and what the
  engine makes of the edge cases. `ValorizationReportApp.tsx` writes every
  fixture amount as currency text (`toMaskedBRL`, `ensureMasked`), while
  `App.jsx` writes raw strings, some of them deliberately malformed.
 */
module Fixtures {
  import opened Wrappers
  import opened Numbers
  import opened Text
  import opened Decimal
  import opened Dates
  import opened Rows
  import opened Brl
  import opened Engine

  /**
    A fixture amount: in the mounted edition the currency text of `cents`
    (what `toMaskedBRL` and `ensureMasked` produce from the source's
    string), in the older edition the source's string itself.
   */
  function Amount(ed: Edition, cents: nat, raw: string): string
  {
    match ed
    case ReportApp => CurrencyBR(cents)
    case LegacyApp => raw
  }

  /** The four rows of `addSamples`. */
  function Samples(ed: Edition): (es: seq<Entry>)
    ensures |es| == 4
  {
    [Entry("Vértice Barigui", "1205", Amount(ed, 17000000, "170000"), "2024-06-15", Amount(ed, 21000000, "210000")),
     Entry("Legacy Tower", "803", Amount(ed, 22000000, "220000"), "2023-11-01", Amount(ed, 26000000, "260000")),
     Entry("Yacht Tower", "1907", Amount(ed, 15000000, "150000"), "2024-12-10", Amount(ed, 16500000, "165000")),
     Entry("Infinity Tower", "305", Amount(ed, 30000000, "300000"), "2025-03-01", Amount(ed, 31500000, "315000"))]
  }

  /**
    The six rows of `addEdgeCases`. `reportDate` is the report date's
    text; `futureDate` is the text the source derives from it five days
    later, which depends on the local time zone and is therefore given.
   */
  function EdgeCases(ed: Edition, reportDate: string, futureDate: string): (es: seq<Entry>)
    ensures |es| == 6
  {
    [ZeroAcquisitionCase(ed, reportDate), FutureDateCase(ed, futureDate), DepreciationCase(ed),
     SameDayCase(ed, reportDate), DecimalCommaCase(ed), InvalidTextCase(ed)]
  }

  function ZeroAcquisitionCase(ed: Edition, reportDate: string): Entry
  {
    Entry("Teste Aquisição Zero", "AZ-01", Amount(ed, 0, "0"), reportDate, Amount(ed, 100000, "1000"))
  }

  function FutureDateCase(ed: Edition, futureDate: string): Entry
  {
    Entry("Teste Data Futura", "DF-01", Amount(ed, 100000, "1000"), futureDate, Amount(ed, 120000, "1200"))
  }

  function DepreciationCase(ed: Edition): Entry
  {
    Entry("Teste Desvalorização", "DV-01", Amount(ed, 20000000, "200000"), "2024-01-10", Amount(ed, 18000000, "180000"))
  }

  function SameDayCase(ed: Edition, reportDate: string): Entry
  {
    Entry("Teste Data Igual", "DI-01", Amount(ed, 5000000, "50000"), reportDate, Amount(ed, 5200000, "52000"))
  }

  function DecimalCommaCase(ed: Edition): Entry
  {
    Entry("Teste Vírgula Decimal", "VD-01", Amount(ed, 15000050, "150.000,50"), "2024-02-20", Amount(ed, 16010075, "160.100,75"))
  }

  function InvalidTextCase(ed: Edition): Entry
  {
    Entry("Teste Texto Inválido", "TX-01", Amount(ed, 20000000, "um valor"), "2024-03-10", Amount(ed, 20000000, "200k"))
  }

  /** The row an entry becomes once stamped, evaluated against a report date. */
  function Evaluated(e: Entry, reportDate: string, ed: Edition): ParsedRow
  {
    ParseRow(Stamp(e, 0), Timestamp(reportDate), ed)
  }

  // The decimal texts of the whole amounts the scenarios below use.

  lemma Text50000()
    ensures NatToString(50000) == "50000"
  {
    NatToStringThousands(50000);
    assert NatToString(50) == "50" && Pad3(0) == "000";
  }

  lemma Text52000()
    ensures NatToString(52000) == "52000"
  {
    NatToStringThousands(52000);
    assert NatToString(52) == "52" && Pad3(0) == "000";
  }

  lemma Text200()
    ensures NatToString(200) == "200"
  {
    assert NatToString(2) == "2" && NatToString(20) == "20";
  }

  lemma Text200000()
    ensures NatToString(200000) == "200000"
  {
    Text200();
    assert NatToString(2000) == "2000" && NatToString(20000) == "20000";
  }

  lemma Text180000()
    ensures NatToString(180000) == "180000"
  {
    assert NatToString(1) == "1" && NatToString(18) == "18" && NatToString(180) == "180";
    assert NatToString(1800) == "1800" && NatToString(18000) == "18000";
  }

  /** "200k" reads as 200: `parseFloat` stops at the first character that is not part of a number. */
  lemma Read200k(s: string, d: string)
    requires d == NatToString(200) && s == d + "k"
    ensures ToDecimal(Some(s)) == Fin(200.0)
  {
    assert s == "" + d + "k";
    DropNoise("", d, "k");
    PlainInteger(200);
  }

  /** Zero, in either edition's notation, reads as zero. */
  lemma ReadZero(ed: Edition, s: string, c: nat)
    requires c == 0 && s == Amount(ed, c, "0")
    ensures ToDecimal(Some(s)) == Fin(0.0)
  {
    if ed == ReportApp {
      CurrencyValue(c);
    } else {
      IntegerText(s);
    }
  }

  lemma CurrencyWhole(n: nat)
    ensures ToDecimal(Some(CurrencyBR(100 * n))) == Fin(n as real)
  {
    var c := 100 * n;
    CurrencyValue(c);
    assert c as real == 100.0 * n as real;
  }

  /** A whole amount, in either edition's notation, reads as that amount. */
  lemma ReadWhole(ed: Edition, s: string, n: nat, raw: string)
    requires raw == NatToString(n) && s == Amount(ed, 100 * n, raw)
    ensures ToDecimal(Some(s)) == Fin(n as real)
  {
    if ed == ReportApp {
      CurrencyWhole(n);
    } else {
      PlainInteger(n);
    }
  }

  // ---------------------------------------------------------------- edge cases

  /** A complete row whose acquisition value reads as zero. */
  lemma ZeroAcquisitionAmounts(r: Row, rep: Option<int>, ed: Edition)
    requires HasAllRequired(r) && ToDecimal(Some(r.valorAquisicao)) == Fin(0.0)
    ensures var p := ParseRow(r, rep, ed);
      ValorAquisicao in p.errors && p.errors[ValorAquisicao] == ZeroAcquisition(ed) && !p.validForTotals
  {
    ErrorsTable(r, Fin(0.0), ToDecimal(Some(r.valorAtual)), Timestamp(r.dataAquisicao), rep, ed);
  }

  lemma ZeroAcquisitionRow(r: Row, rep: Option<int>, ed: Edition, c: nat)
    requires HasAllRequired(r) && c == 0 && r.valorAquisicao == Amount(ed, c, "0")
    ensures var p := ParseRow(r, rep, ed);
      ValorAquisicao in p.errors && p.errors[ValorAquisicao] == ZeroAcquisition(ed) && !p.validForTotals
  {
    ReadZero(ed, r.valorAquisicao, c);
    ZeroAcquisitionAmounts(r, rep, ed);
  }

  /** "Aquisição Zero": a zero acquisition value gets its own message and excludes the row. */
  lemma EdgeZeroAcquisition(ed: Edition, reportDate: string)
    requires reportDate != ""
    ensures var p := Evaluated(ZeroAcquisitionCase(ed, reportDate), reportDate, ed);
      ValorAquisicao in p.errors && p.errors[ValorAquisicao] == ZeroAcquisition(ed) && !p.validForTotals
  {
    ZeroAcquisitionRow(Stamp(ZeroAcquisitionCase(ed, reportDate), 0), Timestamp(reportDate), ed, 0);
  }

  /** "Data Futura": an acquisition date after the report date is reported and excludes the row. */
  lemma EdgeFutureDate(ed: Edition, reportDate: string, futureDate: string)
    requires futureDate != "" && After(Timestamp(futureDate), Timestamp(reportDate))
    ensures var p := Evaluated(FutureDateCase(ed, futureDate), reportDate, ed);
      DataAquisicao in p.errors && p.errors[DataAquisicao] == FutureDate && !p.validForTotals && p.dias == 1
  {
    var r := Stamp(FutureDateCase(ed, futureDate), 0);
    ErrorsTable(r, ToDecimal(Some(r.valorAquisicao)), ToDecimal(Some(r.valorAtual)), Timestamp(r.dataAquisicao), Timestamp(reportDate), ed);
  }

  /** A complete row bought on the report date, with amounts 50000 and 52000. */
  lemma SameDayAmounts(r: Row, rep: Option<int>, ed: Edition)
    requires HasAllRequired(r) && rep.Some? && Timestamp(r.dataAquisicao) == rep
    requires ToDecimal(Some(r.valorAquisicao)) == Fin(50000.0) && ToDecimal(Some(r.valorAtual)) == Fin(52000.0)
    ensures var p := ParseRow(r, rep, ed);
      p.validForTotals && p.dias == 1
      && p.valorAquisicao == Fin(50000.0) && p.valorAtual == Fin(52000.0)
  {
    ValidIff(r, Fin(50000.0), Fin(52000.0), rep, rep, ed);
    SameDay(r, Fin(50000.0), Fin(52000.0), rep.value, ed);
  }

  lemma SameDayRow(r: Row, rep: Option<int>, ed: Edition)
    requires HasAllRequired(r) && rep.Some? && Timestamp(r.dataAquisicao) == rep
    requires r.valorAquisicao == Amount(ed, 5000000, "50000") && r.valorAtual == Amount(ed, 5200000, "52000")
    ensures var p := ParseRow(r, rep, ed);
      p.validForTotals && p.dias == 1
      && p.valorAquisicao == Fin(50000.0) && p.valorAtual == Fin(52000.0)
  {
    Text50000();
    Text52000();
    ReadWhole(ed, r.valorAquisicao, 50000, "50000");
    ReadWhole(ed, r.valorAtual, 52000, "52000");
    SameDayAmounts(r, rep, ed);
  }

  /** "Data Igual": bought on the report date, the row counts and is held for one day. */
  lemma EdgeSameDay(ed: Edition, reportDate: string)
    requires Timestamp(reportDate).Some?
    ensures var p := Evaluated(SameDayCase(ed, reportDate), reportDate, ed);
      p.validForTotals && p.dias == 1
      && p.valorAquisicao == Fin(50000.0) && p.valorAtual == Fin(52000.0)
  {
    SameDayRow(Stamp(SameDayCase(ed, reportDate), 0), Timestamp(reportDate), ed);
  }

  lemma Text150000()
    ensures Group(150000, '.') + "," + Pad2(50) == "150.000,50"
  {
    assert NatToString(1) == "1" && NatToString(15) == "15" && NatToString(150) == "150";
    assert Group(150000, '.') == "150" + "." + Pad3(0);
  }

  lemma Text160100()
    ensures Group(160100, '.') + "," + Pad2(75) == "160.100,75"
  {
    assert NatToString(1) == "1" && NatToString(16) == "16" && NatToString(160) == "160";
    assert Group(160100, '.') == "160" + "." + Pad3(100);
  }

  /** Reais and cents written with thousands dots and a decimal comma, in either edition's notation, read as that amount. */
  lemma ReadCents(ed: Edition, s: string, c: nat, raw: string)
    requires raw == Group(c / 100, '.') + "," + Pad2(c % 100) && s == Amount(ed, c, raw)
    ensures ToDecimal(Some(s)) == Fin(c as real / 100.0)
  {
    if ed == ReportApp {
      assert s == CurrencyBR(c);
      CurrencyValue(c);
    } else {
      CentsText(c);
    }
  }

  lemma DecimalCommaAmounts(ed: Edition, s: string, t: string, a: nat, b: nat)
    requires a == 15000050 && s == Amount(ed, a, "150.000,50")
    requires b == 16010075 && t == Amount(ed, b, "160.100,75")
    ensures ToDecimal(Some(s)) == Fin(150000.5) && ToDecimal(Some(t)) == Fin(160100.75)
  {
    assert ToDecimal(Some(s)) == Fin(150000.5) by {
      assert a / 100 == 150000 && a % 100 == 50;
      Text150000();
      ReadCents(ed, s, a, "150.000,50");
    }
    assert ToDecimal(Some(t)) == Fin(160100.75) by {
      assert b / 100 == 160100 && b % 100 == 75;
      Text160100();
      ReadCents(ed, t, b, "160.100,75");
    }
  }

  /** "Vírgula Decimal": amounts with a decimal comma and thousands dots read as intended. */
  lemma EdgeDecimalComma(ed: Edition, reportDate: string)
    ensures var p := Evaluated(DecimalCommaCase(ed), reportDate, ed);
      p.valorAquisicao == Fin(150000.5) && p.valorAtual == Fin(160100.75)
  {
    var r := Stamp(DecimalCommaCase(ed), 0);
    DecimalCommaAmounts(ed, r.valorAquisicao, r.valorAtual, 15000050, 16010075);
  }

  /** "um valor" holds no digit, so it is no number. */
  lemma ReadUmValor(a: string)
    requires a == "um valor"
    ensures ToDecimal(Some(a)) == NaN
  {
    NoDigitIsNaN(a);
  }

  /** A complete row whose acquisition value is no number and whose current value is 200. */
  lemma InvalidTextAmounts(r: Row, rep: Option<int>, ed: Edition)
    requires HasAllRequired(r)
    requires ToDecimal(Some(r.valorAquisicao)) == NaN && ToDecimal(Some(r.valorAtual)) == Fin(200.0)
    ensures var p := ParseRow(r, rep, ed);
      p.valorAquisicao == NaN && p.valorAtual == Fin(200.0)
      && !p.validForTotals && ValorAquisicao in p.errors && p.errors[ValorAquisicao] == InvalidValue
  {
    ErrorsTable(r, NaN, Fin(200.0), Timestamp(r.dataAquisicao), rep, ed);
  }

  /** A complete row with "um valor" and "200k" as its amounts. */
  lemma InvalidTextRow(r: Row, rep: Option<int>, ed: Edition)
    requires HasAllRequired(r) && r.valorAquisicao == "um valor" && r.valorAtual == "200k"
    ensures var p := ParseRow(r, rep, ed);
      p.valorAquisicao == NaN && p.valorAtual == Fin(200.0)
      && !p.validForTotals && ValorAquisicao in p.errors && p.errors[ValorAquisicao] == InvalidValue
  {
    ReadUmValor(r.valorAquisicao);
    Text200();
    Read200k(r.valorAtual, "200");
    InvalidTextAmounts(r, rep, ed);
  }

  /**
    "Texto Inválido" in the older edition: text without digits is no
    number, so the row is reported and excluded, while "200k" reads as 200.
   */
  lemma EdgeInvalidText(reportDate: string)
    ensures var p := Evaluated(InvalidTextCase(LegacyApp), reportDate, LegacyApp);
      p.valorAquisicao == NaN && p.valorAtual == Fin(200.0)
      && !p.validForTotals && ValorAquisicao in p.errors && p.errors[ValorAquisicao] == InvalidValue
  {
    InvalidTextRow(Stamp(InvalidTextCase(LegacyApp), 0), Timestamp(reportDate), LegacyApp);
  }

  lemma TenPercentLoss()
    ensures (180000.0 / 200000.0 - 1.0) * 100.0 == -10.0
  {
    assert 0.9 * 200000.0 == 180000.0;
  }

  lemma LossPerMonth(d: int)
    requires d >= 1
    ensures (180000.0 - 200000.0) * 30.0 / d as real < 0.0
  {
  }

  lemma DepreciationFigures(r: Row, aq: Option<int>, rep: Option<int>, ed: Edition)
    requires HasAllRequired(r) && OnOrBefore(aq, rep)
    ensures var p := Evaluate(r, Fin(200000.0), Fin(180000.0), aq, rep, ed);
      p.validForTotals && p.lucroMes.Fin? && p.lucroMes.v < 0.0 && p.valorizacaoPct == Fin(-10.0)
  {
    ValidIff(r, Fin(200000.0), Fin(180000.0), aq, rep, ed);
    TenPercentLoss();
    LossPerMonth(Dias(aq, rep));
  }

  /** A complete row bought no later than the report date, for 200000, now worth 180000. */
  lemma DepreciationAmounts(r: Row, rep: Option<int>, ed: Edition)
    requires HasAllRequired(r) && OnOrBefore(Timestamp(r.dataAquisicao), rep)
    requires ToDecimal(Some(r.valorAquisicao)) == Fin(200000.0) && ToDecimal(Some(r.valorAtual)) == Fin(180000.0)
    ensures var p := ParseRow(r, rep, ed);
      p.validForTotals && p.lucroMes.Fin? && p.lucroMes.v < 0.0 && p.valorizacaoPct == Fin(-10.0)
  {
    DepreciationFigures(r, Timestamp(r.dataAquisicao), rep, ed);
  }

  lemma DepreciationRow(r: Row, rep: Option<int>, ed: Edition)
    requires HasAllRequired(r) && OnOrBefore(Timestamp(r.dataAquisicao), rep)
    requires r.valorAquisicao == Amount(ed, 20000000, "200000") && r.valorAtual == Amount(ed, 18000000, "180000")
    ensures var p := ParseRow(r, rep, ed);
      p.validForTotals && p.lucroMes.Fin? && p.lucroMes.v < 0.0 && p.valorizacaoPct == Fin(-10.0)
  {
    Text200000();
    Text180000();
    ReadWhole(ed, r.valorAquisicao, 200000, "200000");
    ReadWhole(ed, r.valorAtual, 180000, "180000");
    DepreciationAmounts(r, rep, ed);
  }

  /** "Desvalorização": reported on or after its acquisition date, the row counts with a loss. */
  lemma EdgeDepreciation(ed: Edition, reportDate: string)
    requires OnOrBefore(Timestamp("2024-01-10"), Timestamp(reportDate))
    ensures var p := Evaluated(DepreciationCase(ed), reportDate, ed);
      p.validForTotals && p.lucroMes.Fin? && p.lucroMes.v < 0.0 && p.valorizacaoPct == Fin(-10.0)
  {
    DepreciationRow(Stamp(DepreciationCase(ed), 0), Timestamp(reportDate), ed);
  }
}
