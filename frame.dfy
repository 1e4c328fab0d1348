/** `load_data` in the form app.py writes it: the frame read from the CSV is changed
    in place, one column at a time. A `DataFrame` holds its header and one sequence of
    cells per column; the row-level view consumed by the rest of the dashboard is
    `Table.LoadData`, and `LoadAgreesWithTable` ties the two together. */
module Frames {
  import opened Wrappers
  import Text
  import Table

  /** A cell as pandas holds it: a string, a missing value, an integer, or (in the
      derived `Tipos_list` column) a list of strings. */
  datatype Cell = Str(s: string) | NaN | Num(n: int) | List(items: seq<string>)

  /** The frame's columns by header. */
  type Columns = map<string, seq<Cell>>

  /** `numeric_cols`, in the order the loop visits them. */
  const NumericCols: seq<string> := ["Total", "HP", "Ataque", "Defensa", "Sp. Atk", "Sp. Def", "Velocidad"]

  /** The header of the derived column. */
  const TiposCol: string := "Tipos_list"

  /** `pd.to_numeric(errors="coerce")` on one cell. `parse` stands for pandas' reading
      of a string as a number; a string it refuses, and any non-numeric cell, becomes
      NaN, while cells that are already numeric or missing are kept. */
  function ToNumeric(parse: string -> Option<int>, c: Cell): (r: Cell)
    ensures r.Num? || r.NaN?
    ensures c.Num? || c.NaN? ==> r == c
    ensures c.Str? ==> (r.Num? <==> parse(c.s).Some?)
    ensures c.Str? && parse(c.s).Some? ==> r == Num(parse(c.s).value)
    ensures c.List? ==> r.NaN?
  {
    match c
    case Str(s) => (match parse(s) case Some(n) => Num(n) case None => NaN)
    case Num(_) => c
    case NaN => NaN
    case List(_) => NaN
  }

  /** `pd.to_numeric` on a whole column. */
  function CoerceCells(parse: string -> Option<int>, cells: seq<Cell>): (r: seq<Cell>)
    ensures |r| == |cells|
    ensures forall i :: 0 <= i < |cells| ==> r[i] == ToNumeric(parse, cells[i])
  {
    seq(|cells|, i requires 0 <= i < |cells| => ToNumeric(parse, cells[i]))
  }

  /** The optional tag a Tipo cell holds: a string is a tag, anything else is missing. */
  function TagOf(c: Cell): Option<string> {
    if c.Str? then Some(c.s) else None
  }

  /** The Tipo column with missing cells filled by "" and split on "/": a string or
      missing cell becomes the list `Table.TiposList` describes; a cell that is not a
      string after filling gives NaN. */
  function SplitCells(cells: seq<Cell>): (r: seq<Cell>)
    ensures |r| == |cells|
    ensures forall i :: 0 <= i < |cells| && (cells[i].Str? || cells[i].NaN?) ==>
              && r[i].List? && |r[i].items| >= 1
              && (forall k :: 0 <= k < |r[i].items| ==> '/' !in r[i].items[k])
              && Text.Join(r[i].items, '/') == Table.FillNa(TagOf(cells[i]))
    ensures forall i :: 0 <= i < |cells| && cells[i].NaN? ==> r[i] == List([""])
    ensures forall i :: 0 <= i < |cells| && !(cells[i].Str? || cells[i].NaN?) ==> r[i].NaN?
  {
    seq(|cells|, i requires 0 <= i < |cells| =>
      if cells[i].Str? || cells[i].NaN? then List(Table.TiposList(TagOf(cells[i]))) else NaN)
  }

  /** The frame after each column named in `cs`, in turn, is replaced by its
      coercion to numbers. */
  function CoerceColumns(d: Columns, cs: seq<string>, parse: string -> Option<int>): (r: Columns)
    requires forall c :: c in cs ==> c in d
    ensures r.Keys == d.Keys
    ensures forall c :: c in d ==> |r[c]| == |d[c]|
    decreases |cs|
  {
    if cs == [] then d
    else
      var r := CoerceColumns(d, cs[..|cs| - 1], parse);
      var c := cs[|cs| - 1];
      r[c := CoerceCells(parse, r[c])]
  }

  /** The frame `load_data` returns once the header check has passed: every numeric
      column coerced, then `Tipos_list` derived from Tipo. */
  function AfterLoad(d: Columns, parse: string -> Option<int>): (r: Columns)
    requires forall c :: c in Table.Expected ==> c in d
    ensures r.Keys == d.Keys + {TiposCol}
    ensures forall c :: c in d && c != TiposCol ==> |r[c]| == |d[c]|
    ensures |r[TiposCol]| == |d["Tipo"]|
  {
    var r := CoerceColumns(d, NumericCols, parse);
    r[TiposCol := SplitCells(r["Tipo"])]
  }

  /** When no expected header is missing, every expected column is in the frame. */
  lemma {:induction false} NothingMissing(columns: seq<string>, d: Columns)
    requires Table.Missing(columns) == []
    requires forall c :: c in columns ==> c in d
    ensures forall c :: c in Table.Expected ==> c in columns && c in d
  {
  }

  /** The loader's test `if missing:` is the same as some expected header being absent. */
  lemma {:induction false} MissingIff(columns: seq<string>)
    ensures Table.Missing(columns) != [] <==> exists c :: c in Table.Expected && c !in columns
  {
    if Table.Missing(columns) != [] {
      assert Table.Missing(columns)[0] in Table.Missing(columns);
    }
  }

  /** The frame read from the CSV: its header and its columns. */
  class DataFrame {
    var columns: seq<string>
    var data: Columns

    /** Every header names a column of cells. */
    predicate Valid()
      reads this
    {
      forall c :: c in columns ==> c in data
    }

    /** The frame `pd.read_csv` hands to the loader. */
    constructor(columns: seq<string>, data: Columns)
      requires forall c :: c in columns ==> c in data
      ensures Valid()
      ensures this.columns == columns && this.data == data
    {
      this.columns := columns;
      this.data := data;
    }

    /** The loop over `numeric_cols` (here `cs`), replacing each column in place by
        its `pd.to_numeric` coercion. */
    method CoerceNumeric(cs: seq<string>, parse: string -> Option<int>)
      requires Valid()
      requires forall c :: c in cs ==> c in data
      modifies this
      ensures Valid()
      ensures columns == old(columns) && data.Keys == old(data).Keys
      ensures data == CoerceColumns(old(data), cs, parse)
    {
      for k := 0 to |cs|
        invariant columns == old(columns)
        invariant data == CoerceColumns(old(data), cs[..k], parse)
      {
        var c := cs[k];
        assert cs[..k + 1][..k] == cs[..k];
        data := data[c := CoerceCells(parse, data[c])];
      }
      assert cs[..|cs|] == cs;
    }

    /** The assignment of the derived `Tipos_list` column: it is added at the end of
        the header, or replaced when already there. */
    method AddTiposList()
      requires Valid() && "Tipo" in data
      modifies this
      ensures Valid()
      ensures columns == old(columns) + (if TiposCol in old(columns) then [] else [TiposCol])
      ensures data == old(data)[TiposCol := SplitCells(old(data)["Tipo"])]
    {
      data := data[TiposCol := SplitCells(data["Tipo"])];
      if TiposCol !in columns {
        columns := columns + [TiposCol];
      }
    }

    /** The body of `load_data` after `read_csv`: the `ValueError` (leaving the frame
        as it was) when an expected header is absent; otherwise the numeric columns
        are coerced in place and the `Tipos_list` column is added (or replaced). */
    method LoadData(parse: string -> Option<int>) returns (r: Result<(), Table.LoadError>)
      requires Valid()
      modifies this
      ensures Valid()
      ensures r.Err? <==> exists c :: c in Table.Expected && c !in old(columns)
      ensures r.Err? ==> r.error == Table.MissingColumns(Table.Missing(old(columns)), old(columns))
      ensures r.Err? ==> columns == old(columns) && data == old(data)
      ensures r.Ok? ==> columns == old(columns) + (if TiposCol in old(columns) then [] else [TiposCol])
      ensures r.Ok? ==> (forall c :: c in Table.Expected ==> c in old(data)) && data == AfterLoad(old(data), parse)
    {
      var missing := Table.Missing(columns);
      MissingIff(columns);
      if missing != [] {
        return Err(Table.MissingColumns(missing, columns));
      }
      NothingMissing(columns, data);
      assert forall c :: c in NumericCols ==> c in Table.Expected;
      assert "Tipo" in Table.Expected;
      CoerceNumeric(NumericCols, parse);
      AddTiposList();
      r := Ok(());
    }
  }

  /** Coercing a column that is already coerced changes nothing. */
  lemma {:induction false} CoerceTwice(parse: string -> Option<int>, cells: seq<Cell>)
    ensures CoerceCells(parse, CoerceCells(parse, cells)) == CoerceCells(parse, cells)
  {
  }

  /** Coercing the columns `cs` in turn coerces each of them exactly as one
      `to_numeric` would, whatever their order or repetitions, and leaves every other
      column as it was. */
  lemma {:induction false} CoerceColumnsAt(d: Columns, cs: seq<string>, parse: string -> Option<int>, c: string)
    requires forall x :: x in cs ==> x in d
    requires c in d
    ensures CoerceColumns(d, cs, parse)[c] == if c in cs then CoerceCells(parse, d[c]) else d[c]
    decreases |cs|
  {
    if cs != [] {
      var init := cs[..|cs| - 1];
      var last := cs[|cs| - 1];
      assert cs == init + [last];
      CoerceColumnsAt(d, init, parse, c);
      if c == last && c in init {
        CoerceTwice(parse, d[c]);
      }
    }
  }

  /** After loading, cell i of a numeric column is the coercion of the cell read from
      the CSV, so the column holds only numbers and NaN. */
  lemma {:induction false} LoadedNumericColumn(d: Columns, parse: string -> Option<int>, c: string)
    requires forall x :: x in Table.Expected ==> x in d
    requires c in NumericCols
    ensures |AfterLoad(d, parse)[c]| == |d[c]|
    ensures forall i :: 0 <= i < |d[c]| ==> AfterLoad(d, parse)[c][i] == ToNumeric(parse, d[c][i])
    ensures forall i :: 0 <= i < |d[c]| ==> AfterLoad(d, parse)[c][i].Num? || AfterLoad(d, parse)[c][i].NaN?
  {
    assert forall c :: c in NumericCols ==> c in Table.Expected;
    CoerceColumnsAt(d, NumericCols, parse, c);
  }

  /** Loading leaves every column other than the numeric ones and `Tipos_list` as
      it was read. */
  lemma {:induction false} LoadedKeepsOtherColumns(d: Columns, parse: string -> Option<int>, c: string)
    requires forall x :: x in Table.Expected ==> x in d
    requires c in d && c !in NumericCols && c != TiposCol
    ensures AfterLoad(d, parse)[c] == d[c]
  {
    assert forall c :: c in NumericCols ==> c in Table.Expected;
    CoerceColumnsAt(d, NumericCols, parse, c);
  }

  /** After loading, `Tipos_list` has one list per row: where the Tipo cell is a tag
      or missing, it is the tag's fragments, which joined back with "/" give the tag
      (a missing tag reading as ""). */
  lemma {:induction false} LoadedTiposList(d: Columns, parse: string -> Option<int>)
    requires forall x :: x in Table.Expected ==> x in d
    ensures |AfterLoad(d, parse)[TiposCol]| == |d["Tipo"]|
    ensures forall i :: 0 <= i < |d["Tipo"]| && (d["Tipo"][i].Str? || d["Tipo"][i].NaN?) ==>
      && AfterLoad(d, parse)[TiposCol][i] == List(Table.TiposList(TagOf(d["Tipo"][i])))
      && Text.Join(AfterLoad(d, parse)[TiposCol][i].items, '/') == Table.FillNa(TagOf(d["Tipo"][i]))
  {
    assert forall c :: c in NumericCols ==> c in Table.Expected;
    assert "Tipo" !in NumericCols && "Tipo" != TiposCol;
    CoerceColumnsAt(d, NumericCols, parse, "Tipo");
  }

  /** Every expected column is present and `n` cells long. */
  predicate Shape(d: Columns, n: nat) {
    forall c :: c in Table.Expected ==> c in d && |d[c]| == n
  }

  /** `Shape` spelled out column by column. */
  lemma {:induction false} ShapeColumns(d: Columns, n: nat)
    requires Shape(d, n)
    ensures "ID" in d && |d["ID"]| == n && "Nombre" in d && |d["Nombre"]| == n
    ensures "Tipo" in d && |d["Tipo"]| == n && "País" in d && |d["País"]| == n
    ensures "Total" in d && |d["Total"]| == n && "HP" in d && |d["HP"]| == n
    ensures "Ataque" in d && |d["Ataque"]| == n && "Defensa" in d && |d["Defensa"]| == n
    ensures "Sp. Atk" in d && |d["Sp. Atk"]| == n && "Sp. Def" in d && |d["Sp. Def"]| == n
    ensures "Velocidad" in d && |d["Velocidad"]| == n
  {
    assert Table.Expected[0] == "ID" && Table.Expected[1] == "Nombre" && Table.Expected[2] == "Tipo";
    assert Table.Expected[3] == "País" && Table.Expected[4] == "Total" && Table.Expected[5] == "HP";
    assert Table.Expected[6] == "Ataque" && Table.Expected[7] == "Defensa" && Table.Expected[8] == "Sp. Atk";
    assert Table.Expected[9] == "Sp. Def" && Table.Expected[10] == "Velocidad";
  }

  /** A numeric cell as an optional stat. */
  function NumOf(c: Cell): Option<int> {
    if c.Num? then Some(c.n) else None
  }

  /** Row `i` of the frame read as a record. ID and Nombre are only displayed, so a
      cell of the wrong kind there reads as 0 or "". */
  function RecordAt(d: Columns, n: nat, i: nat): Table.Record
    requires Shape(d, n) && i < n
  {
    ShapeColumns(d, n);
    Table.Record(
      if d["ID"][i].Num? then d["ID"][i].n else 0,
      if d["Nombre"][i].Str? then d["Nombre"][i].s else "",
      TagOf(d["Tipo"][i]),
      TagOf(d["País"][i]),
      NumOf(d["Total"][i]),
      NumOf(d["HP"][i]),
      NumOf(d["Ataque"][i]),
      NumOf(d["Defensa"][i]),
      NumOf(d["Sp. Atk"][i]),
      NumOf(d["Sp. Def"][i]),
      NumOf(d["Velocidad"][i]))
  }

  /** The tag of row `i` is read from its Tipo cell. */
  lemma {:induction false} RecordTipo(d: Columns, n: nat, i: nat)
    requires Shape(d, n) && i < n
    ensures "Tipo" in d && |d["Tipo"]| == n
    ensures RecordAt(d, n, i).tipo == TagOf(d["Tipo"][i])
  {
    ShapeColumns(d, n);
  }

  /** The frame's records, row by row. */
  function RecordsOf(d: Columns, n: nat): seq<Table.Record>
    requires Shape(d, n)
  {
    seq(n, i requires 0 <= i < n => RecordAt(d, n, i))
  }

  /** The frame's rows with their `Tipos_list` cells (a cell that is not a list reads
      as no fragments). */
  function RowsOf(d: Columns, n: nat): seq<Table.Row>
    requires Shape(d, n) && TiposCol in d && |d[TiposCol]| == n
  {
    seq(n, i requires 0 <= i < n =>
      Table.Row(RecordAt(d, n, i), if d[TiposCol][i].List? then d[TiposCol][i].items else []))
  }

  /** Loading keeps every expected column `n` cells long and adds a derived column
      of the same length. */
  lemma {:induction false} LoadedShape(d: Columns, parse: string -> Option<int>, n: nat)
    requires Shape(d, n)
    ensures Shape(AfterLoad(d, parse), n) && TiposCol in AfterLoad(d, parse)
    ensures |AfterLoad(d, parse)[TiposCol]| == n
  {
    assert TiposCol !in Table.Expected;
    assert "Tipo" in Table.Expected;
  }

  /** Cell `i` of the loaded `Tipos_list` column is the split of the loaded Tipo cell. */
  lemma {:induction false} LoadedRow(d: Columns, parse: string -> Option<int>, n: nat, i: nat)
    requires Shape(d, n) && i < n
    requires d["Tipo"][i].Str? || d["Tipo"][i].NaN?
    ensures Shape(AfterLoad(d, parse), n) && TiposCol in AfterLoad(d, parse)
    ensures |AfterLoad(d, parse)[TiposCol]| == n
    ensures AfterLoad(d, parse)[TiposCol][i] == List(Table.TiposList(TagOf(AfterLoad(d, parse)["Tipo"][i])))
  {
    LoadedShape(d, parse, n);
    assert "Tipo" in Table.Expected && "Tipo" !in NumericCols && "Tipo" != TiposCol;
    LoadedTiposList(d, parse);
    LoadedKeepsOtherColumns(d, parse, "Tipo");
  }

  /** Row `i` of the loaded frame is its record with that record's `Tipos_list`. */
  lemma {:induction false} RowAgrees(d: Columns, parse: string -> Option<int>, n: nat, i: nat)
    requires Shape(d, n) && i < n
    requires d["Tipo"][i].Str? || d["Tipo"][i].NaN?
    ensures Shape(AfterLoad(d, parse), n) && TiposCol in AfterLoad(d, parse)
    ensures |AfterLoad(d, parse)[TiposCol]| == n
    ensures var rec := RecordAt(AfterLoad(d, parse), n, i);
            RowsOf(AfterLoad(d, parse), n)[i] == Table.Row(rec, Table.TiposList(rec.tipo))
  {
    LoadedRow(d, parse, n, i);
    RecordTipo(AfterLoad(d, parse), n, i);
  }

  /** The frame `DataFrame.LoadData` leaves behind, read row by row, is exactly what
      the row-level `Table.LoadData` produces from its records, provided every Tipo
      cell is a tag or missing (as `read_csv` leaves a text column). */
  lemma {:induction false} LoadAgreesWithTable(columns: seq<string>, d: Columns, parse: string -> Option<int>, n: nat)
    requires forall c :: c in Table.Expected ==> c in columns
    requires Shape(d, n)
    requires forall i :: 0 <= i < n ==> d["Tipo"][i].Str? || d["Tipo"][i].NaN?
    ensures Shape(AfterLoad(d, parse), n)
    ensures Table.LoadData(columns, RecordsOf(AfterLoad(d, parse), n)) == Ok(RowsOf(AfterLoad(d, parse), n))
  {
    LoadedShape(d, parse, n);
    var a := AfterLoad(d, parse);
    var recs := RecordsOf(a, n);
    var rows := RowsOf(a, n);
    var r := Table.LoadData(columns, recs);
    MissingIff(columns);
    assert r.Ok?;
    forall i | 0 <= i < n
      ensures r.value[i] == rows[i]
    {
      RowAgrees(d, parse, n, i);
    }
    assert r.value == rows;
  }
}
