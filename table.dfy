/** The loaded Pokédex table (`load_data` in app.py): the header check and the
    derived `Tipos_list` column. Cells arrive already parsed: `tipo` and `pais` are
    `None` where the CSV cell was empty, and a stat is `None` where numeric coercion
    failed. */
module Table {
  import opened Wrappers
  import Seqs
  import Text

  /** One row of the CSV, columns ID, Nombre, Tipo, País, Total, HP, Ataque,
      Defensa, Sp. Atk, Sp. Def and Velocidad. */
  datatype Record = Record(
    id: int,
    nombre: string,
    tipo: Option<string>,
    pais: Option<string>,
    total: Option<int>,
    hp: Option<int>,
    ataque: Option<int>,
    defensa: Option<int>,
    spAtk: Option<int>,
    spDef: Option<int>,
    velocidad: Option<int>)

  /** A row of the loaded frame: the record and its `Tipos_list` column. */
  datatype Row = Row(rec: Record, tiposList: seq<string>)

  /** The seven numeric columns coerced by `pd.to_numeric`. */
  datatype Stat = Total | HP | Ataque | Defensa | SpAtk | SpDef | Velocidad

  function StatOf(r: Record, c: Stat): Option<int> {
    match c
    case Total => r.total
    case HP => r.hp
    case Ataque => r.ataque
    case Defensa => r.defensa
    case SpAtk => r.spAtk
    case SpDef => r.spDef
    case Velocidad => r.velocidad
  }

  /** The `ValueError` raised by the loader: the missing headers, then the
      headers found. */
  datatype LoadError = MissingColumns(missing: seq<string>, found: seq<string>)

  /** The headers the loader demands, in the order it reports them. */
  const Expected: seq<string> :=
    ["ID", "Nombre", "Tipo", "País", "Total", "HP", "Ataque", "Defensa", "Sp. Atk", "Sp. Def", "Velocidad"]

  /** `missing`: the expected headers that are
      absent, in the order of `Expected`. */
  function Missing(columns: seq<string>): (missing: seq<string>)
    ensures Seqs.IsSubseq(missing, Expected)
    ensures forall c :: c in missing <==> c in Expected && c !in columns
  {
    Seqs.FilterIsSubseq(Expected, c => c !in columns);
    Seqs.Filter(Expected, c => c !in columns)
  }

  /** `fillna("")` on the Tipo column. */
  function FillNa(tipo: Option<string>): string {
    match tipo
    case Some(t) => t
    case None => ""
  }

  /** One cell of the derived `Tipos_list` column: joined back with "/" it
      gives the tag (a missing tag reads as ""), so a missing tag is `[""]`. */
  function TiposList(tipo: Option<string>): (ts: seq<string>)
    ensures |ts| >= 1
    ensures forall k :: 0 <= k < |ts| ==> '/' !in ts[k]
    ensures Text.Join(ts, '/') == FillNa(tipo)
    ensures tipo.None? ==> ts == [""]
  {
    Text.JoinSplit(FillNa(tipo), '/');
    Text.Split(FillNa(tipo), '/')
  }

  /** The frame with its new `Tipos_list` column. */
  function AddTiposList(records: seq<Record>): (rows: seq<Row>)
    ensures |rows| == |records|
    ensures forall i :: 0 <= i < |rows| ==> rows[i].rec == records[i]
    ensures Loaded(rows)
  {
    seq(|records|, i requires 0 <= i < |records| => Row(records[i], TiposList(records[i].tipo)))
  }

  /** `load_data` after `read_csv`: fail when a header is missing, otherwise every
      record with its `Tipos_list`. */
  function LoadData(columns: seq<string>, records: seq<Record>): (r: Result<seq<Row>, LoadError>)
    ensures r.Err? <==> exists c :: c in Expected && c !in columns
    ensures r.Err? ==> r.error.missing == Missing(columns) && r.error.found == columns
    ensures r.Ok? ==> |r.value| == |records| && Loaded(r.value)
    ensures r.Ok? ==> forall i :: 0 <= i < |records| ==> r.value[i].rec == records[i]
  {
    var missing := Missing(columns);
    assert missing != [] ==> missing[0] in missing;
    if missing != [] then Err(MissingColumns(missing, columns)) else Ok(AddTiposList(records))
  }

  /** A table produced by the loader: every `Tipos_list` is the split tag. */
  predicate Loaded(rows: seq<Row>) {
    forall i :: 0 <= i < |rows| ==> rows[i].tiposList == TiposList(rows[i].rec.tipo)
  }
}
