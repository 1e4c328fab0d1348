/** The "Explorador de combate" metrics (app.py lines 79-95): for Total, Velocidad,
    Ataque and Defensa, the maximum over the filtered table and the name of the row
    that `idxmax` picks. */
module Explorer {
  import opened Wrappers
  import opened Table
  import Filtering

  /** `Series.idxmax()` with missing values skipped, as a position in `rows`: the
      first row holding the column's largest value; `None` when every value in the
      column is missing. */
  function IdxMax(rows: seq<Row>, c: Stat): (m: Option<nat>)
    ensures m.None? <==> forall j :: 0 <= j < |rows| ==> StatOf(rows[j].rec, c).None?
    ensures m.Some? ==> m.value < |rows| && StatOf(rows[m.value].rec, c).Some?
    ensures m.Some? ==> forall j :: 0 <= j < |rows| && StatOf(rows[j].rec, c).Some? ==>
              StatOf(rows[j].rec, c).value <= StatOf(rows[m.value].rec, c).value
    ensures m.Some? ==> forall j :: 0 <= j < m.value && StatOf(rows[j].rec, c).Some? ==>
              StatOf(rows[j].rec, c).value < StatOf(rows[m.value].rec, c).value
  {
    if rows == [] then None
    else
      var n := |rows| - 1;
      var prev := IdxMax(rows[..n], c);
      assert forall j :: 0 <= j < n ==> rows[..n][j] == rows[j];
      match StatOf(rows[n].rec, c)
      case None => prev
      case Some(v) =>
        if prev.None? || v > StatOf(rows[prev.value].rec, c).value then Some(n) else prev
  }

  /** One metric card: the maximum and the `Nombre` of the row holding it. */
  datatype Metric = Metric(value: int, nombre: string)

  /** A metric card's number and help text: the column's value and the Nombre of
      the row `idxmax` picks. */
  function MaxWithName(rows: seq<Row>, c: Stat): (m: Option<Metric>)
    ensures m.None? <==> forall j :: 0 <= j < |rows| ==> StatOf(rows[j].rec, c).None?
    ensures m.Some? ==> exists i :: 0 <= i < |rows| && StatOf(rows[i].rec, c) == Some(m.value.value)
                                  && m.value.nombre == rows[i].rec.nombre
                                  && forall j :: 0 <= j < i ==> StatOf(rows[j].rec, c) != Some(m.value.value)
    ensures m.Some? ==> forall j :: 0 <= j < |rows| && StatOf(rows[j].rec, c).Some? ==>
              StatOf(rows[j].rec, c).value <= m.value.value
  {
    match IdxMax(rows, c)
    case None => None
    case Some(i) => Some(Metric(StatOf(rows[i].rec, c).value, rows[i].rec.nombre))
  }

  /** The four cards, or the "Sin datos" message on an empty filtered table. */
  datatype Cards =
    | NoData
    | Cards(maxTotal: Option<Metric>, maxVelocidad: Option<Metric>, maxAtaque: Option<Metric>, maxDefensa: Option<Metric>)

  function CombatCards(dfF: seq<Row>): (cards: Cards)
    ensures cards.NoData? <==> dfF == []
    ensures cards.Cards? ==>
              && cards.maxTotal == MaxWithName(dfF, Total)
              && cards.maxVelocidad == MaxWithName(dfF, Velocidad)
              && cards.maxAtaque == MaxWithName(dfF, Ataque)
              && cards.maxDefensa == MaxWithName(dfF, Defensa)
  {
    if dfF == [] then NoData
    else Cards(MaxWithName(dfF, Total), MaxWithName(dfF, Velocidad),
               MaxWithName(dfF, Ataque), MaxWithName(dfF, Defensa))
  }

  /** On a non-empty filtered table the Total card always exists: every surviving
      row has a Total. The other three columns may be entirely missing. */
  lemma {:induction false} FilteredTotalCardExists(rows: seq<Row>, sel: Filtering.Selection)
    requires Filtering.FilterRows(rows, sel) != []
    ensures CombatCards(Filtering.FilterRows(rows, sel)).Cards?
    ensures CombatCards(Filtering.FilterRows(rows, sel)).maxTotal.Some?
  {
    var dfF := Filtering.FilterRows(rows, sel);
    assert dfF[0] in dfF;
  }
}
