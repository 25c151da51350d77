/**
  The report engine: every row of the editor is parsed into amounts, a
  day count, three figures and a set of per-field error messages
  (`parsedRows`); the rows that pass validation are added up into the
  report totals (`totals`) and the donut chart (`pieData`). Both editions
  compute the same thing; only the message for a zero acquisition value
  is spelled differently.
 */
module Engine {
  import opened Wrappers
  import opened Numbers
  import opened Text
  import opened Decimal
  import opened Dates
  import opened Rows
  import opened Acronym

  const Required := "Obrigatório"
  const InvalidValue := "Valor inválido"
  const FutureDate := "Data > Relatório. Corrija."

  function ZeroAcquisition(ed: Edition): string
  {
    match ed
    case ReportApp => "Informe o valor de aquisição (> 0)"
    case LegacyApp => "Informe o valor de aquisição (>0)"
  }

  const MsPerDay := 86400000

  datatype ParsedRow = ParsedRow(
    id: int,
    empreendimento: string,
    unidade: string,
    valorAquisicao: Num,
    dataAquisicao: string,
    valorAtual: Num,
    dias: int,
    valorizacaoPct: Num,
    lucroMes: Num,
    lucroPctMes: Num,
    validForTotals: bool,
    errors: map<Field, string>)

  // ---------------------------------------------------------------- one row

  /** Every field of the row is filled in. */
  predicate HasAllRequired(r: Row)
  {
    r.empreendimento != "" && r.unidade != "" && r.valorAquisicao != ""
    && r.dataAquisicao != "" && r.valorAtual != ""
  }

  /** `dAq && repDate && dAq > repDate`: false when either date is missing or invalid. */
  predicate After(aq: Option<int>, rep: Option<int>)
  {
    aq.Some? && rep.Some? && aq.value > rep.value
  }

  /** `dAq && repDate && dAq <= repDate` */
  predicate OnOrBefore(aq: Option<int>, rep: Option<int>)
  {
    aq.Some? && rep.Some? && aq.value <= rep.value
  }

  /**
    The days between acquisition and report: the difference of the two
    time values in milliseconds, floored to whole days and at least 1; 1
    when the acquisition is later than the report or either date is invalid.
   */
  function Dias(aq: Option<int>, rep: Option<int>): (d: int)
    ensures d >= 1
    ensures OnOrBefore(aq, rep) ==> d == Max(1, rep.value - aq.value)
    ensures !OnOrBefore(aq, rep) ==> d == 1
  {
    if OnOrBefore(aq, rep) then
      var elapsed := rep.value * MsPerDay - aq.value * MsPerDay;
      assert elapsed == (rep.value - aq.value) * MsPerDay;
      Max(1, elapsed / MsPerDay)
    else
      1
  }

  /** `"Obrigatório"` for each empty field, in the order the source sets them. */
  function RequiredErrors(r: Row): map<Field, string>
  {
    var e1 := if r.empreendimento == "" then map[Empreendimento := Required] else map[];
    var e2 := if r.unidade == "" then e1[Unidade := Required] else e1;
    var e3 := if r.valorAquisicao == "" then e2[ValorAquisicao := Required] else e2;
    var e4 := if r.valorAtual == "" then e3[ValorAtual := Required] else e3;
    if r.dataAquisicao == "" then e4[DataAquisicao := Required] else e4
  }

  /** A non-finite or negative amount, checked only when every field is filled in. */
  function AmountErrors(e: map<Field, string>, all: bool, va: Num, vc: Num): map<Field, string>
  {
    if !all then e
    else
      var e1 := if !IsFinite(va) || Lt(va, 0.0) then e[ValorAquisicao := InvalidValue] else e;
      if !IsFinite(vc) || Lt(vc, 0.0) then e1[ValorAtual := InvalidValue] else e1
  }

  /** The two reasons to ignore a complete row, each overwriting its field's message. */
  function IgnoreErrors(e: map<Field, string>, all: bool, va: Num, aq: Option<int>, rep: Option<int>, ed: Edition): map<Field, string>
  {
    if !all then e
    else
      var e1 := if va == Fin(0.0) then e[ValorAquisicao := ZeroAcquisition(ed)] else e;
      if After(aq, rep) then e1[DataAquisicao := FutureDate] else e1
  }

  /** The `ignore` flag. */
  predicate Ignored(all: bool, va: Num, aq: Option<int>, rep: Option<int>)
  {
    all && (va == Fin(0.0) || After(aq, rep))
  }

  /** `va > 0 && isFinite(vc / va) ? (vc / va - 1) * 100 : NaN` */
  function ValorizacaoPct(va: Num, vc: Num): (p: Num)
    ensures p.Fin? <==> Gt(va, 0.0) && vc.Fin?
    ensures p.Fin? ==> va.v * (1.0 + p.v / 100.0) == vc.v
  {
    if Gt(va, 0.0) && vc.Fin? then Fin((vc.v / va.v - 1.0) * 100.0) else NaN
  }

  /** `isFinite(vc - va) ? (vc - va) / (dias / 30) : NaN` */
  function LucroMes(va: Num, vc: Num, dias: int): (l: Num)
    requires dias >= 1
    ensures l.Fin? <==> va.Fin? && vc.Fin?
  {
    var gain := Sub(vc, va);
    if gain.Fin? then Fin(gain.v / (dias as real / 30.0)) else NaN
  }

  /** `va > 0 && isFinite(lucroMes / va) ? (lucroMes / va) * 100 : NaN` */
  function LucroPctMes(va: Num, lucroMes: Num): (p: Num)
    ensures p.Fin? <==> Gt(va, 0.0) && lucroMes.Fin?
  {
    if Gt(va, 0.0) && lucroMes.Fin? then Fin(lucroMes.v / va.v * 100.0) else NaN
  }

  /** The one entry of `parsedRows` that a row becomes, against the report date's day number. */
  function ParseRow(r: Row, rep: Option<int>, ed: Edition): (p: ParsedRow)
    ensures p.id == r.id && p.empreendimento == r.empreendimento && p.unidade == r.unidade
    ensures p.dias >= 1
    ensures forall f :: Get(r, f) == "" ==> f in p.errors && p.errors[f] == Required
    ensures p.validForTotals ==> HasAllRequired(r) && Gt(p.valorAquisicao, 0.0) && p.valorAtual.Fin?
  {
    // `r.dataAquisicao ? new Date(r.dataAquisicao) : null`: "" is no date either way
    ErrorsTable(r, ToDecimal(Some(r.valorAquisicao)), ToDecimal(Some(r.valorAtual)), Timestamp(r.dataAquisicao), rep, ed);
    Evaluate(r, ToDecimal(Some(r.valorAquisicao)), ToDecimal(Some(r.valorAtual)), Timestamp(r.dataAquisicao), rep, ed)
  }

  /** The checks and figures of a row, once its amounts `va`, `vc` and its acquisition date `aq` are read. */
  function Evaluate(r: Row, va: Num, vc: Num, aq: Option<int>, rep: Option<int>, ed: Edition): (p: ParsedRow)
    ensures p.id == r.id && p.valorAquisicao == va && p.valorAtual == vc && p.dias >= 1
    ensures p.validForTotals ==> HasAllRequired(r) && Gt(va, 0.0) && vc.Fin? && !After(aq, rep)
  {
    var all := HasAllRequired(r);
    var errors := IgnoreErrors(AmountErrors(RequiredErrors(r), all, va, vc), all, va, aq, rep, ed);
    var dias := Dias(aq, rep);
    var lucro := LucroMes(va, vc, dias);
    var valid := all && !Ignored(all, va, aq, rep) && IsFinite(va) && IsFinite(vc) && Gt(va, 0.0);
    ParsedRow(r.id, r.empreendimento, r.unidade, va, r.dataAquisicao, vc, dias,
              ValorizacaoPct(va, vc), lucro, LucroPctMes(va, lucro), valid, errors)
  }

  /** `parsedRows`: every row, in order, against the report date. */
  function ParsedRows(rows: seq<Row>, reportDate: string, ed: Edition): (ps: seq<ParsedRow>)
    ensures |ps| == |rows|
  {
    ParseAll(rows, Timestamp(reportDate), ed)
  }

  function ParseAll(rows: seq<Row>, rep: Option<int>, ed: Edition): (ps: seq<ParsedRow>)
    ensures |ps| == |rows|
    ensures forall i :: 0 <= i < |rows| ==> ps[i].id == rows[i].id
  {
    if rows == [] then [] else [ParseRow(rows[0], rep, ed)] + ParseAll(rows[1..], rep, ed)
  }

  // ---------------------------------------------------------------- totals

  /** `parsedRows.filter(r => r.validForTotals)`, in input order. */
  function ValidRows(ps: seq<ParsedRow>): (vs: seq<ParsedRow>)
    ensures |vs| <= |ps|
    ensures forall i :: 0 <= i < |vs| ==> vs[i].validForTotals && vs[i] in ps
  {
    if ps == [] then []
    else (if ps[0].validForTotals then [ps[0]] else []) + ValidRows(ps[1..])
  }

  /** `valid.reduce((s, r) => s + Number(r.valorAquisicao || 0), 0)` */
  function SumAcquisition(vs: seq<ParsedRow>): real
  {
    if vs == [] then 0.0 else OrZero(vs[0].valorAquisicao) + SumAcquisition(vs[1..])
  }

  /** `valid.reduce((s, r) => s + Number(r.valorAtual || 0), 0)` */
  function SumCurrent(vs: seq<ParsedRow>): real
  {
    if vs == [] then 0.0 else OrZero(vs[0].valorAtual) + SumCurrent(vs[1..])
  }

  /** `valid.map(r => r.unidade)` */
  function Units(vs: seq<ParsedRow>): (us: seq<string>)
    ensures |us| == |vs| && forall i :: 0 <= i < |vs| ==> us[i] == vs[i].unidade
  {
    if vs == [] then [] else [vs[0].unidade] + Units(vs[1..])
  }

  /** `valid.map(r => acronymFromEmp(r.empreendimento) + r.unidade)` */
  function Labels(vs: seq<ParsedRow>): (ls: seq<string>)
    ensures |ls| == |vs| && forall i :: 0 <= i < |vs| ==> ls[i] == AcronymFromEmp(vs[i].empreendimento) + vs[i].unidade
  {
    if vs == [] then [] else [AcronymFromEmp(vs[0].empreendimento) + vs[0].unidade] + Labels(vs[1..])
  }

  datatype Totals = Totals(
    totalUnidades: nat,
    listaUnidades: string,
    listaSiglas: string,
    valorTotalContratos: real,
    valorAtualImoveis: real,
    lucroValorizacao: real,
    valorizacaoAtualPct: real)

  /** `totals` (the acronym labels exist in `ValorizationReportApp.tsx` only). */
  function ComputeTotals(ps: seq<ParsedRow>): (t: Totals)
    ensures t.totalUnidades <= |ps|
    ensures t.lucroValorizacao == t.valorAtualImoveis - t.valorTotalContratos
    ensures t.totalUnidades == 0 ==> t.valorTotalContratos == 0.0 && t.valorAtualImoveis == 0.0 && t.valorizacaoAtualPct == 0.0
    ensures t.totalUnidades == 0 ==> t.listaUnidades == "" && t.listaSiglas == ""
    ensures t.valorTotalContratos <= 0.0 ==> t.valorizacaoAtualPct == 0.0
    ensures t.valorTotalContratos > 0.0 ==> t.valorTotalContratos * (1.0 + t.valorizacaoAtualPct / 100.0) == t.valorAtualImoveis
  {
    var valid := ValidRows(ps);
    var contratos := SumAcquisition(valid);
    var atual := SumCurrent(valid);
    Totals(|valid|, Join(Units(valid), ", "), Join(Labels(valid), ", "),
           contratos, atual, atual - contratos,
           if contratos > 0.0 then (atual / contratos - 1.0) * 100.0 else 0.0)
  }

  datatype Slice = Slice(name: string, value: real)

  /** `pieData`: the contract total and the profit, a loss drawn as 0. */
  function PieData(t: Totals): (pie: seq<Slice>)
    ensures |pie| == 2 && pie[0].value == t.valorTotalContratos
    ensures pie[1].value >= 0.0 && pie[1].value >= t.lucroValorizacao
  {
    [Slice("Valor Total de Contratos (R$)", t.valorTotalContratos),
     Slice("Lucro na Valorização (R$)", if t.lucroValorizacao >= 0.0 then t.lucroValorizacao else 0.0)]
  }

  // ---------------------------------------------------------------- validation, declaratively

  /**
    The message each field ends up with, stated per field rather than in
    the order the source writes them: an empty field is required; a
    complete row's zero acquisition value, invalid amount or future date is
    reported on its own field; anything else has no message.
   */
  function ExpectedError(r: Row, va: Num, vc: Num, aq: Option<int>, rep: Option<int>, ed: Edition, f: Field): Option<string>
  {
    if Get(r, f) == "" then Some(Required)
    else if !HasAllRequired(r) then None
    else
      match f
      case ValorAquisicao =>
        if va == Fin(0.0) then Some(ZeroAcquisition(ed))
        else if !IsFinite(va) || Lt(va, 0.0) then Some(InvalidValue)
        else None
      case ValorAtual => if !IsFinite(vc) || Lt(vc, 0.0) then Some(InvalidValue) else None
      case DataAquisicao => if After(aq, rep) then Some(FutureDate) else None
      case _ => None
  }

  lemma RequiredErrorsTable(r: Row)
    ensures forall f :: (f in RequiredErrors(r)) == (Get(r, f) == "")
    ensures forall f :: f in RequiredErrors(r) ==> RequiredErrors(r)[f] == Required
  {
  }

  /** The errors of a row are exactly the ones the per-field table gives. */
  lemma ErrorsTable(r: Row, va: Num, vc: Num, aq: Option<int>, rep: Option<int>, ed: Edition)
    ensures var e := Evaluate(r, va, vc, aq, rep, ed).errors;
      forall f :: (f in e <==> ExpectedError(r, va, vc, aq, rep, ed, f).Some?)
                  && (f in e ==> e[f] == ExpectedError(r, va, vc, aq, rep, ed, f).value)
  {
    RequiredErrorsTable(r);
  }

  /**
    A row is counted in the totals exactly when every field is filled in,
    the acquisition value is a positive number, the current value is a
    number and the acquisition date is not after the report date.
   */
  lemma ValidIff(r: Row, va: Num, vc: Num, aq: Option<int>, rep: Option<int>, ed: Edition)
    ensures Evaluate(r, va, vc, aq, rep, ed).validForTotals
      <==> HasAllRequired(r) && Gt(va, 0.0) && vc.Fin? && !After(aq, rep)
  {
  }

  /**
    A counted row has no message, except "Valor inválido" on a negative
    current value, which validation reports but does not exclude.
   */
  lemma ValidRowMessages(r: Row, va: Num, vc: Num, aq: Option<int>, rep: Option<int>, ed: Edition)
    requires Evaluate(r, va, vc, aq, rep, ed).validForTotals
    ensures var e := Evaluate(r, va, vc, aq, rep, ed).errors;
      Empreendimento !in e && Unidade !in e && ValorAquisicao !in e && DataAquisicao !in e
      && (ValorAtual in e <==> vc.v < 0.0)
  {
    ErrorsTable(r, va, vc, aq, rep, ed);
  }

  /** A zero acquisition value and a future date are both reported, and the row is ignored. */
  lemma BothIgnoreReasons(r: Row, aq: Option<int>, rep: Option<int>, ed: Edition, vc: Num)
    requires HasAllRequired(r) && After(aq, rep)
    ensures var p := Evaluate(r, Fin(0.0), vc, aq, rep, ed);
      ValorAquisicao in p.errors && p.errors[ValorAquisicao] == ZeroAcquisition(ed) && DataAquisicao in p.errors && p.errors[DataAquisicao] == FutureDate
      && !p.validForTotals
  {
    ErrorsTable(r, Fin(0.0), vc, aq, rep, ed);
  }

  // ---------------------------------------------------------------- figures

  lemma MonthlyGain(va: real, vc: real, dias: int)
    requires dias >= 1
    ensures (vc - va) / (dias as real / 30.0) == (vc - va) * 30.0 / dias as real
  {
  }

  lemma MonthlyPercent(va: real, vc: real, dias: int)
    requires dias >= 1 && va > 0.0
    ensures (vc - va) * 30.0 / dias as real / va * 100.0 == (vc / va - 1.0) * 100.0 * 30.0 / dias as real
  {
    var q, d := vc / va, dias as real;
    assert q * va == vc;
    var k := (q - 1.0) * 30.0 / d;
    assert (vc - va) * 30.0 / d == k * va;
    assert k * va / va == k;
  }

  /**
    The monthly profit is the gain scaled to 30 days, and the monthly
    profit percentage is the appreciation percentage scaled the same way.
   */
  lemma Figures(r: Row, va: Num, vc: Num, aq: Option<int>, rep: Option<int>, ed: Edition)
    ensures var p := Evaluate(r, va, vc, aq, rep, ed);
      p.dias >= 1
      && (p.lucroMes.Fin? <==> va.Fin? && vc.Fin?)
      && (p.lucroMes.Fin? ==> p.lucroMes.v == (vc.v - va.v) * 30.0 / p.dias as real)
      && (p.valorizacaoPct.Fin? <==> Gt(va, 0.0) && vc.Fin?)
      && (p.lucroPctMes.Fin? <==> p.valorizacaoPct.Fin?)
      && (p.lucroPctMes.Fin? ==> p.lucroPctMes.v == p.valorizacaoPct.v * 30.0 / p.dias as real)
  {
    var d := Dias(aq, rep);
    if va.Fin? && vc.Fin? {
      MonthlyGain(va.v, vc.v, d);
      if va.v > 0.0 {
        MonthlyPercent(va.v, vc.v, d);
      }
    }
  }

  /** Acquisition and report on the same day make a one-day holding. */
  lemma SameDay(r: Row, va: Num, vc: Num, day: int, ed: Edition)
    ensures Evaluate(r, va, vc, Some(day), Some(day), ed).dias == 1
  {
  }

  // ---------------------------------------------------------------- totals, properties

  /** What parsing guarantees of a counted row: both amounts are numbers and the acquisition is positive. */
  predicate CountedRowsPriced(ps: seq<ParsedRow>)
  {
    forall i :: 0 <= i < |ps| && ps[i].validForTotals ==> Gt(ps[i].valorAquisicao, 0.0) && ps[i].valorAtual.Fin?
  }

  lemma {:induction false} ParsedRowsPriced(rows: seq<Row>, rep: Option<int>, ed: Edition)
    ensures CountedRowsPriced(ParseAll(rows, rep, ed))
  {
    if rows != [] {
      ParsedRowsPriced(rows[1..], rep, ed);
      var r := rows[0];
      ValidIff(r, ToDecimal(Some(r.valorAquisicao)), ToDecimal(Some(r.valorAtual)), Timestamp(r.dataAquisicao), rep, ed);
    }
  }

  lemma {:induction false} ParseAllAppend(a: seq<Row>, b: seq<Row>, rep: Option<int>, ed: Edition)
    ensures ParseAll(a + b, rep, ed) == ParseAll(a, rep, ed) + ParseAll(b, rep, ed)
  {
    if a == [] {
      assert a + b == b;
    } else {
      assert (a + b)[1..] == a[1..] + b;
      ParseAllAppend(a[1..], b, rep, ed);
    }
  }

  lemma {:induction false} ValidRowsAppend(a: seq<ParsedRow>, b: seq<ParsedRow>)
    ensures ValidRows(a + b) == ValidRows(a) + ValidRows(b)
  {
    if a == [] {
      assert a + b == b;
    } else {
      var h := if a[0].validForTotals then [a[0]] else [];
      assert (a + b)[0] == a[0] && (a + b)[1..] == a[1..] + b;
      ValidRowsCons(a[0], a[1..] + b, a + b);
      ValidRowsCons(a[0], a[1..], a);
      ValidRowsAppend(a[1..], b);
      ConsAppend(h, ValidRows(a[1..]), ValidRows(b), ValidRows(a + b), ValidRows(a));
    }
  }

  lemma ConsAppend<T>(h: seq<T>, x: seq<T>, y: seq<T>, z: seq<T>, w: seq<T>)
    requires z == h + (x + y) && w == h + x
    ensures z == w + y
  {
  }

  lemma ValidRowsCons(p: ParsedRow, rest: seq<ParsedRow>, ps: seq<ParsedRow>)
    requires |ps| >= 1 && ps[0] == p && ps[1..] == rest
    ensures ValidRows(ps) == (if p.validForTotals then [p] else []) + ValidRows(rest)
  {
  }

  lemma {:induction false} SumsAppend(a: seq<ParsedRow>, b: seq<ParsedRow>)
    ensures SumAcquisition(a + b) == SumAcquisition(a) + SumAcquisition(b)
    ensures SumCurrent(a + b) == SumCurrent(a) + SumCurrent(b)
  {
    if a == [] {
      assert a + b == b;
    } else {
      assert (a + b)[1..] == a[1..] + b;
      SumsAppend(a[1..], b);
    }
  }

  /** A row that is not counted changes none of the sums. */
  lemma UncountedRowIgnored(ps: seq<ParsedRow>, p: ParsedRow)
    requires !p.validForTotals
    ensures var t, t' := ComputeTotals(ps), ComputeTotals(ps + [p]);
      t'.totalUnidades == t.totalUnidades && t'.valorTotalContratos == t.valorTotalContratos
      && t'.valorAtualImoveis == t.valorAtualImoveis && t'.listaUnidades == t.listaUnidades
      && t'.listaSiglas == t.listaSiglas
  {
    ValidRowsAppend(ps, [p]);
    assert ValidRows([p]) == [];
    assert ValidRows(ps + [p]) == ValidRows(ps);
  }

  /**
    A counted row adds one unit and its two amounts to the sums, and its
    unit and its label to the end of the two lists, after ", ".
   */
  lemma CountedRowAdded(ps: seq<ParsedRow>, p: ParsedRow)
    requires p.validForTotals && Gt(p.valorAquisicao, 0.0) && p.valorAtual.Fin?
    ensures var t, t' := ComputeTotals(ps), ComputeTotals(ps + [p]);
      t'.totalUnidades == t.totalUnidades + 1
      && t'.valorTotalContratos == t.valorTotalContratos + p.valorAquisicao.v
      && t'.valorAtualImoveis == t.valorAtualImoveis + p.valorAtual.v
    ensures var t, t' := ComputeTotals(ps), ComputeTotals(ps + [p]);
      t'.listaUnidades == (if t.totalUnidades == 0 then p.unidade else t.listaUnidades + ", " + p.unidade)
    ensures var t, t' := ComputeTotals(ps), ComputeTotals(ps + [p]);
      var tag := AcronymFromEmp(p.empreendimento) + p.unidade;
      t'.listaSiglas == (if t.totalUnidades == 0 then tag else t.listaSiglas + ", " + tag)
  {
    var vs := ValidRows(ps);
    ValidRowsAppend(ps, [p]);
    assert ValidRows([p]) == [p];
    SumsAppend(vs, [p]);
    var tag := AcronymFromEmp(p.empreendimento) + p.unidade;
    assert Units(vs + [p]) == Units(vs) + [p.unidade];
    assert Labels(vs + [p]) == Labels(vs) + [tag];
    if vs != [] {
      JoinSnoc(Units(vs), p.unidade, ", ");
      JoinSnoc(Labels(vs), tag, ", ");
    }
  }

  lemma {:induction false} PositiveSum(vs: seq<ParsedRow>)
    requires forall i :: 0 <= i < |vs| ==> Gt(vs[i].valorAquisicao, 0.0)
    ensures SumAcquisition(vs) >= 0.0
    ensures SumAcquisition(vs) > 0.0 <==> |vs| > 0
  {
    if vs != [] {
      PositiveSum(vs[1..]);
    }
  }

  /**
    The contract total is positive exactly when some row is counted; with
    no counted row the overall percentage is 0.
   */
  lemma ContractTotalPositive(ps: seq<ParsedRow>)
    requires CountedRowsPriced(ps)
    ensures var t := ComputeTotals(ps);
      (t.valorTotalContratos > 0.0 <==> t.totalUnidades > 0)
      && (t.totalUnidades == 0 ==> t.valorizacaoAtualPct == 0.0 && t.lucroValorizacao == 0.0)
  {
    var vs := ValidRows(ps);
    forall i | 0 <= i < |vs|
      ensures Gt(vs[i].valorAquisicao, 0.0)
    {
      var j :| 0 <= j < |ps| && ps[j] == vs[i];
    }
    PositiveSum(vs);
  }

  /** The sum of the counted rows' gains, row by row. */
  function Gains(vs: seq<ParsedRow>): real
  {
    if vs == [] then 0.0 else (OrZero(vs[0].valorAtual) - OrZero(vs[0].valorAquisicao)) + Gains(vs[1..])
  }

  lemma {:induction false} GainsSum(vs: seq<ParsedRow>)
    ensures Gains(vs) == SumCurrent(vs) - SumAcquisition(vs)
  {
    if vs != [] {
      GainsSum(vs[1..]);
    }
  }

  /** The report's profit is the sum of the counted rows' gains. */
  lemma ProfitIsSumOfGains(ps: seq<ParsedRow>)
    ensures ComputeTotals(ps).lucroValorizacao == Gains(ValidRows(ps))
  {
    GainsSum(ValidRows(ps));
  }

  /**
    The chart's profit slice is never negative, and with a non-negative
    contract total the two slices add up to the larger of the contract
    total and the current total.
   */
  lemma PieClamp(t: Totals)
    requires t.lucroValorizacao == t.valorAtualImoveis - t.valorTotalContratos
    ensures var pie := PieData(t);
      |pie| == 2 && pie[1].value >= 0.0
      && (t.lucroValorizacao >= 0.0 ==> pie[1].value == t.lucroValorizacao)
      && pie[0].value + pie[1].value
         == (if t.valorAtualImoveis >= t.valorTotalContratos then t.valorAtualImoveis else t.valorTotalContratos)
  {
  }
}
