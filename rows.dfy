/**
  The editor's rows: every field is the text of an input, exactly as the
  user typed it (or as the fixtures fill it in).
 */
module Rows {

  /**
    The report exists in two editions that share the row engine: the
    component the application mounts (`ValorizationReportApp.tsx`) and the
    older `App.jsx`. They differ in one validation message and in the
    fixture texts.
   */
  datatype Edition = ReportApp | LegacyApp

  /** The editable fields of a row (every key of a row but its id). */
  datatype Field = Empreendimento | Unidade | ValorAquisicao | DataAquisicao | ValorAtual

  datatype Row = Row(
    id: int,
    empreendimento: string,
    unidade: string,
    valorAquisicao: string,
    dataAquisicao: string,
    valorAtual: string)

  /** A row before it is given an id (`Omit<Row, "id">`), as the fixtures list them. */
  datatype Entry = Entry(
    empreendimento: string,
    unidade: string,
    valorAquisicao: string,
    dataAquisicao: string,
    valorAtual: string)

  function Get(r: Row, f: Field): string
  {
    match f
    case Empreendimento => r.empreendimento
    case Unidade => r.unidade
    case ValorAquisicao => r.valorAquisicao
    case DataAquisicao => r.dataAquisicao
    case ValorAtual => r.valorAtual
  }

  /** `{ ...r, [f]: v }`: the row with one field replaced. */
  function With(r: Row, f: Field, v: string): (r': Row)
    ensures r'.id == r.id && Get(r', f) == v
    ensures forall g :: g != f ==> Get(r', g) == Get(r, g)
  {
    match f
    case Empreendimento => r.(empreendimento := v)
    case Unidade => r.(unidade := v)
    case ValorAquisicao => r.(valorAquisicao := v)
    case DataAquisicao => r.(dataAquisicao := v)
    case ValorAtual => r.(valorAtual := v)
  }

  /** `emptyRow(id)` */
  function EmptyRow(id: int): (r: Row)
    ensures r.id == id && forall f :: Get(r, f) == ""
  {
    Row(id, "", "", "", "", "")
  }

  /** `{ id, ...e }` */
  function Stamp(e: Entry, id: int): (r: Row)
    ensures r.id == id
  {
    Row(id, e.empreendimento, e.unidade, e.valorAquisicao, e.dataAquisicao, e.valorAtual)
  }
}
