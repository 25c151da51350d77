/**
  The editor's row list: the rows state and the `nextIdRef` counter that
  the buttons "add row", "remove", "clear", "samples" and "edge cases" and
  every keystroke in a cell update. Each handler replaces the list through
  a functional updater (`setRows(prev => ...)`); the counter is a mutable
  reference. The list is never empty, and its ids are distinct and below
  the counter.
 */
module Editor {
  import opened Rows
  import opened Fixtures

  /** No two rows share an id. */
  predicate UniqueIds(rows: seq<Row>)
  {
    forall i, j :: 0 <= i < |rows| && 0 <= j < |rows| && i != j ==> rows[i].id != rows[j].id
  }

  /** Every id is positive and below `next`, so `next` is a fresh id. */
  predicate IdsBelow(rows: seq<Row>, next: int)
  {
    forall i :: 0 <= i < |rows| ==> 1 <= rows[i].id < next
  }

  predicate HasId(rows: seq<Row>, id: int)
  {
    exists i :: 0 <= i < |rows| && rows[i].id == id
  }

  /** `r.filter((x) => x.id !== id)` */
  function RemoveId(rows: seq<Row>, id: int): (rs: seq<Row>)
    ensures |rs| <= |rows|
    ensures forall r :: r in rs <==> r in rows && r.id != id
  {
    if rows == [] then []
    else (if rows[0].id != id then [rows[0]] else []) + RemoveId(rows[1..], id)
  }

  /** `prev.map((r) => (r.id === id ? { ...r, [field]: value } : r))` */
  function EditRows(rows: seq<Row>, id: int, f: Field, v: string): (rs: seq<Row>)
    ensures |rs| == |rows|
    ensures forall i :: 0 <= i < |rows| ==> rs[i].id == rows[i].id
    ensures forall i, g :: 0 <= i < |rows| ==>
      Get(rs[i], g) == if rows[i].id == id && g == f then v else Get(rows[i], g)
  {
    seq(|rows|, i requires 0 <= i < |rows| => if rows[i].id == id then With(rows[i], f, v) else rows[i])
  }

  /** `extras.map((s, i) => ({ id: first + i, ...s }))` */
  function StampFrom(es: seq<Entry>, first: int): (rs: seq<Row>)
    ensures |rs| == |es|
    ensures forall i :: 0 <= i < |es| ==> rs[i] == Stamp(es[i], first + i)
  {
    seq(|es|, i requires 0 <= i < |es| => Stamp(es[i], first + i))
  }

  /** A lone row with neither development nor unit is dropped before the edge cases are added. */
  function KeepBase(rows: seq<Row>): (base: seq<Row>)
    ensures base == [] || base == rows
    ensures base == [] <==> |rows| == 0 || (|rows| == 1 && rows[0].empreendimento == "" && rows[0].unidade == "")
  {
    if |rows| == 1 && rows[0].empreendimento == "" && rows[0].unidade == "" then [] else rows
  }

  // ---------------------------------------------------------------- properties

  /** Removing an id that a row carries removes exactly that row; any other id removes nothing. */
  lemma {:induction false} RemoveIdCount(rows: seq<Row>, id: int)
    requires UniqueIds(rows)
    ensures |RemoveId(rows, id)| == if HasId(rows, id) then |rows| - 1 else |rows|
  {
    if rows != [] {
      var tail := rows[1..];
      TailUnique(rows);
      RemoveIdCount(tail, id);
      if rows[0].id == id {
        assert !HasId(tail, id) by {
          forall i | 0 <= i < |tail| ensures tail[i].id != id {
            assert tail[i] == rows[i + 1];
          }
        }
        assert HasId(rows, id) by { assert rows[0].id == id; }
      } else {
        if HasId(tail, id) {
          var i :| 0 <= i < |tail| && tail[i].id == id;
          assert rows[i + 1].id == id;
        }
        if HasId(rows, id) {
          var i :| 0 <= i < |rows| && rows[i].id == id;
          assert tail[i - 1].id == id;
        }
      }
    }
  }

  /** Filtering keeps the ids distinct. */
  lemma {:induction false} RemoveIdUnique(rows: seq<Row>, id: int)
    requires UniqueIds(rows)
    ensures UniqueIds(RemoveId(rows, id))
  {
    if rows != [] {
      var tail := rows[1..];
      TailUnique(rows);
      RemoveIdUnique(tail, id);
      var rest := RemoveId(tail, id);
      if rows[0].id != id {
        forall k | 0 <= k < |rest| ensures rest[k].id != rows[0].id {
          assert rest[k] in tail;
          var j :| 0 <= j < |tail| && tail[j] == rest[k];
          assert tail[j] == rows[j + 1];
        }
        ConsUnique(rows[0], rest);
        assert RemoveId(rows, id) == [rows[0]] + rest;
      } else {
        assert RemoveId(rows, id) == rest;
      }
    }
  }

  lemma TailUnique(rows: seq<Row>)
    requires |rows| >= 1 && UniqueIds(rows)
    ensures UniqueIds(rows[1..])
  {
    var tail := rows[1..];
    forall i, j | 0 <= i < |tail| && 0 <= j < |tail| && i != j
      ensures tail[i].id != tail[j].id
    {
      assert tail[i] == rows[i + 1] && tail[j] == rows[j + 1];
    }
  }

  lemma ConsUnique(r: Row, rest: seq<Row>)
    requires UniqueIds(rest) && forall k :: 0 <= k < |rest| ==> rest[k].id != r.id
    ensures UniqueIds([r] + rest)
  {
    var rs := [r] + rest;
    forall i, j | 0 <= i < |rs| && 0 <= j < |rs| && i != j
      ensures rs[i].id != rs[j].id
    {
      if i > 0 && j > 0 {
        assert rs[i] == rest[i - 1] && rs[j] == rest[j - 1];
      } else if i == 0 {
        assert rs[j] == rest[j - 1];
      } else {
        assert rs[i] == rest[i - 1];
      }
    }
  }

  /** Removing a row from a list of two or more never empties it. */
  lemma RemoveKeepsOne(rows: seq<Row>, id: int)
    requires UniqueIds(rows) && |rows| >= 2
    ensures |RemoveId(rows, id)| >= 1
  {
    RemoveIdCount(rows, id);
  }

  /** New rows stamped from a fresh id keep all ids distinct and below the advanced counter. */
  lemma AppendFresh(base: seq<Row>, es: seq<Entry>, first: int)
    requires UniqueIds(base) && IdsBelow(base, first) && first >= 1
    ensures var rs := base + StampFrom(es, first);
      UniqueIds(rs) && IdsBelow(rs, first + |es|)
  {
    var added := StampFrom(es, first);
    var rs := base + added;
    forall i | 0 <= i < |rs| ensures 1 <= rs[i].id < first + |es| {
      if i >= |base| {
        assert rs[i] == added[i - |base|];
      }
    }
    forall i, j | 0 <= i < |rs| && 0 <= j < |rs| && i != j
      ensures rs[i].id != rs[j].id
    {
      if i >= |base| {
        assert rs[i] == added[i - |base|];
      }
      if j >= |base| {
        assert rs[j] == added[j - |base|];
      }
    }
  }

  /** The samples are numbered 1 to 4. */
  lemma SamplesNumbered(ed: Edition)
    ensures var rs := StampFrom(Samples(ed), 1);
      |rs| == 4 && forall i :: 0 <= i < 4 ==> rs[i].id == i + 1
  {
  }

  // ---------------------------------------------------------------- the row list

  class RowEditor {
    /** Which edition's fixtures the buttons load. */
    const edition: Edition
    /** `rows` */
    var rows: seq<Row>
    /** `nextIdRef.current` */
    var nextId: int

    ghost predicate Valid()
      reads this
    {
      |rows| >= 1 && UniqueIds(rows) && IdsBelow(rows, nextId)
    }

    /** `useState([emptyRow(1)])` and `useRef(2)` */
    constructor (ed: Edition)
      ensures Valid() && edition == ed
      ensures rows == [EmptyRow(1)] && nextId == 2
    {
      edition := ed;
      rows := [EmptyRow(1)];
      nextId := 2;
    }

    /** `addRow`: append an empty row with the next id and advance the counter. */
    method AddRow()
      requires Valid()
      modifies this
      ensures Valid()
      ensures rows == old(rows) + [EmptyRow(old(nextId))] && nextId == old(nextId) + 1
    {
      assert nextId >= 2 by { assert 1 <= rows[0].id < nextId; }
      var rs := rows + [EmptyRow(nextId)];
      assert forall i :: 0 <= i < |rows| ==> rs[i] == rows[i];
      rows := rs;
      nextId := nextId + 1;
    }

    /** `removeRow`: the last row cannot be removed. */
    method RemoveRow(id: int)
      requires Valid()
      modifies this
      ensures Valid() && nextId == old(nextId)
      ensures rows == if |old(rows)| == 1 then old(rows) else RemoveId(old(rows), id)
      ensures |old(rows)| >= 2 ==> |rows| == if HasId(old(rows), id) then |old(rows)| - 1 else |old(rows)|
    {
      if |rows| != 1 {
        RemoveIdCount(rows, id);
        RemoveIdUnique(rows, id);
        rows := RemoveId(rows, id);
      }
    }

    /** `clearAll`: back to one empty row and the counter at 2. */
    method ClearAll()
      modifies this
      ensures Valid()
      ensures rows == [EmptyRow(1)] && nextId == 2
    {
      rows := [EmptyRow(1)];
      nextId := 2;
    }

    /** `handleRowChange`: set one field of the row with that id. */
    method HandleRowChange(id: int, f: Field, v: string)
      requires Valid()
      modifies this
      ensures Valid() && nextId == old(nextId)
      ensures rows == EditRows(old(rows), id, f, v)
    {
      var rs := EditRows(rows, id, f, v);
      assert forall i :: 0 <= i < |rs| ==> rs[i].id == rows[i].id;
      rows := rs;
    }

    /** `addSamples`: replace every row by the four samples, numbered from 1. */
    method AddSamples()
      modifies this
      ensures Valid()
      ensures rows == StampFrom(Samples(edition), 1) && nextId == 5
    {
      AppendFresh([], Samples(edition), 1);
      assert [] + StampFrom(Samples(edition), 1) == StampFrom(Samples(edition), 1);
      rows := StampFrom(Samples(edition), 1);
      nextId := 5;
    }

    /**
      `addEdgeCases`: append the six edge cases with fresh consecutive ids,
      dropping a lone blank row first. `futureDate` is the text the source
      computes as the report date plus five days.
     */
    method AddEdgeCases(reportDate: string, futureDate: string)
      requires Valid()
      modifies this
      ensures Valid()
      ensures rows == KeepBase(old(rows)) + StampFrom(EdgeCases(edition, reportDate, futureDate), old(nextId))
      ensures nextId == old(nextId) + 6
    {
      var base := KeepBase(rows);
      var extras := EdgeCases(edition, reportDate, futureDate);
      assert nextId >= 2 by { assert 1 <= rows[0].id < nextId; }
      AppendFresh(base, extras, nextId);
      rows := base + StampFrom(extras, nextId);
      nextId := nextId + |extras|;
    }
  }
}
