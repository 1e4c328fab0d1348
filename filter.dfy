/** The filter engine of app.py lines 58-65: the country mask, the type mask built
    from `tiene_tipo`, the inclusive `Total` range, and `df_f = df[mask]`. */
module Filtering {
  import opened Wrappers
  import opened Table
  import Seqs
  import Text
  import Options

  /** The sidebar state: the selected countries, the selected types and the slider's
      `rango_total` as `(lo, hi)`. */
  datatype Selection = Selection(paises: seq<string>, tipos: seq<string>, lo: int, hi: int)

  /** `mask_pais`: `isin(sel_paises)`, or no restriction when nothing is selected;
      a missing country is in no list. */
  predicate PaisOk(r: Row, paises: seq<string>) {
    paises == [] || (r.rec.pais.Some? && r.rec.pais.value in paises)
  }

  /** `mask_total`: `Series.between(lo, hi)`, inclusive on both ends; a missing
      Total is never between. */
  predicate Between(v: Option<int>, lo: int, hi: int) {
    v.Some? && lo <= v.value <= hi
  }

  /** Whether some type of the row appears in the selection. */
  function AnyIn(ts: seq<string>, seleccion: seq<string>): (b: bool)
    ensures b <==> exists t :: t in ts && t in seleccion
  {
    if ts == [] then false
    else
      assert forall t :: t in ts <==> t == ts[0] || t in ts[1..];
      ts[0] in seleccion || AnyIn(ts[1..], seleccion)
  }

  /** `tiene_tipo`: some type of the row is selected (overlap, not containment), or
      the selection is empty. */
  function TieneTipo(rowTipos: seq<string>, seleccion: seq<string>): (b: bool)
    ensures b <==> seleccion == [] || exists t :: t in rowTipos && t in seleccion
  {
    if seleccion != [] then AnyIn(rowTipos, seleccion) else true
  }

  predicate Passes(r: Row, sel: Selection) {
    PaisOk(r, sel.paises) && TieneTipo(r.tiposList, sel.tipos) && Between(r.rec.total, sel.lo, sel.hi)
  }

  /** `df_f`: the rows passing all three masks, as an order-preserving subsequence
      of the table that keeps every copy of every passing row. */
  function FilterRows(rows: seq<Row>, sel: Selection): (out: seq<Row>)
    ensures Seqs.IsSubseq(out, rows)
    ensures forall r :: r in out <==>
              && r in rows
              && (sel.paises == [] || (r.rec.pais.Some? && r.rec.pais.value in sel.paises))
              && (sel.tipos == [] || exists t :: t in r.tiposList && t in sel.tipos)
              && (r.rec.total.Some? && sel.lo <= r.rec.total.value <= sel.hi)
    ensures forall r :: multiset(out)[r] == if Passes(r, sel) then multiset(rows)[r] else 0
  {
    Seqs.FilterIsSubseq(rows, r => Passes(r, sel));
    Seqs.Filter(rows, r => Passes(r, sel))
  }

  /** The filtered table is the only order-preserving subsequence containing exactly
      the passing rows. */
  lemma {:induction false} FilterRowsUnique(rows: seq<Row>, sel: Selection, a: seq<Row>)
    requires Seqs.IsSubseq(a, rows)
    requires forall r :: multiset(a)[r] == if Passes(r, sel) then multiset(rows)[r] else 0
    ensures a == FilterRows(rows, sel)
  {
    Seqs.FilterUnique(rows, r => Passes(r, sel), a);
  }

  /** Every row of the filtered table has a Total, inside the slider's range. */
  lemma {:induction false} FilteredTotalsInRange(rows: seq<Row>, sel: Selection)
    ensures forall k :: 0 <= k < |FilterRows(rows, sel)| ==>
              FilterRows(rows, sel)[k].rec.total.Some?
              && sel.lo <= FilterRows(rows, sel)[k].rec.total.value <= sel.hi
  {
    var out := FilterRows(rows, sel);
    forall k | 0 <= k < |out| ensures out[k].rec.total.Some? && sel.lo <= out[k].rec.total.value <= sel.hi {
      assert out[k] in out;
    }
  }

  /** With no country selected, the country mask is dropped altogether. */
  lemma {:induction false} EmptyPaisesNoRestriction(rows: seq<Row>, sel: Selection)
    requires sel.paises == []
    ensures FilterRows(rows, sel)
         == Seqs.Filter(rows, (r: Row) => TieneTipo(r.tiposList, sel.tipos) && Between(r.rec.total, sel.lo, sel.hi))
  {
    Seqs.FilterCongruent(rows, r => Passes(r, sel),
                         (r: Row) => TieneTipo(r.tiposList, sel.tipos) && Between(r.rec.total, sel.lo, sel.hi));
  }

  /** With no type selected, the type mask is dropped altogether. */
  lemma {:induction false} EmptyTiposNoRestriction(rows: seq<Row>, sel: Selection)
    requires sel.tipos == []
    ensures FilterRows(rows, sel)
         == Seqs.Filter(rows, (r: Row) => PaisOk(r, sel.paises) && Between(r.rec.total, sel.lo, sel.hi))
  {
    Seqs.FilterCongruent(rows, r => Passes(r, sel),
                         (r: Row) => PaisOk(r, sel.paises) && Between(r.rec.total, sel.lo, sel.hi));
  }

  /** Selecting no country and selecting every country agree when every row has a
      country. */
  lemma {:induction false} NoCountryEqualsAllCountries(rows: seq<Row>, sel: Selection)
    requires forall i :: 0 <= i < |rows| ==> rows[i].rec.pais.Some?
    ensures FilterRows(rows, sel.(paises := [])) == FilterRows(rows, sel.(paises := Options.Paises(rows)))
  {
    var none, all := sel.(paises := []), sel.(paises := Options.Paises(rows));
    forall k | 0 <= k < |rows| ensures Passes(rows[k], none) == Passes(rows[k], all) {
      assert rows[k].rec.pais == Some(rows[k].rec.pais.value);
    }
    Seqs.FilterCongruent(rows, r => Passes(r, none), r => Passes(r, all));
  }

  /** A row without a country survives only when no country is selected. */
  lemma {:induction false} MissingPaisOnlyWithoutRestriction(rows: seq<Row>, sel: Selection, r: Row)
    requires r in rows && r.rec.pais.None?
    requires TieneTipo(r.tiposList, sel.tipos) && Between(r.rec.total, sel.lo, sel.hi)
    ensures r in FilterRows(rows, sel) <==> sel.paises == []
  {
  }

  /** The full selection (every offered country and type, a covering Total range) keeps the
      whole loaded table, in order, when every row has a country, a tag and a Total. */
  lemma {:induction false} FullSelectionKeepsAll(rows: seq<Row>, sel: Selection)
    requires Loaded(rows)
    requires sel.paises == Options.Paises(rows) && sel.tipos == Options.TiposUnicos(rows)
    requires forall i :: 0 <= i < |rows| ==>
               rows[i].rec.pais.Some? && rows[i].rec.tipo.Some? && Between(rows[i].rec.total, sel.lo, sel.hi)
    ensures FilterRows(rows, sel) == rows
  {
    forall k | 0 <= k < |rows| ensures Passes(rows[k], sel) {
      var r := rows[k];
      assert r.rec.pais == Some(r.rec.pais.value);
      var parts := Text.Split(r.rec.tipo.value, '/');
      assert r.tiposList == parts;
      assert parts[0] in parts;
    }
    Seqs.FilterAll(rows, r => Passes(r, sel));
  }

  /** Under the full selection (every offered country and every offered type) a row
      passes exactly when it has a country or no country is offered, has a tag or no
      type is offered or "" is an offered type, and has a Total within the range. */
  lemma {:induction false} PassesUnderFullSelection(rows: seq<Row>, sel: Selection, k: nat)
    requires Loaded(rows) && k < |rows|
    requires sel.paises == Options.Paises(rows) && sel.tipos == Options.TiposUnicos(rows)
    ensures Passes(rows[k], sel) <==>
              && (rows[k].rec.pais.Some? || sel.paises == [])
              && (rows[k].rec.tipo.Some? || sel.tipos == [] || "" in sel.tipos)
              && Between(rows[k].rec.total, sel.lo, sel.hi)
  {
    var r := rows[k];
    if r.rec.pais.Some? {
      assert r.rec.pais == Some(r.rec.pais.value);
    }
    if r.rec.tipo.Some? {
      var parts := Text.Split(r.rec.tipo.value, '/');
      assert r.tiposList == parts;
      assert parts[0] in parts;
    } else {
      assert r.tiposList == [""];
      assert "" in r.tiposList;
    }
  }

  /** The full selection keeps the whole table, row for row, exactly when every row
      passes each mask as `PassesUnderFullSelection` spells out. */
  lemma {:induction false} FullSelectionKeepsAllIff(rows: seq<Row>, sel: Selection)
    requires Loaded(rows)
    requires sel.paises == Options.Paises(rows) && sel.tipos == Options.TiposUnicos(rows)
    ensures FilterRows(rows, sel) == rows <==> forall i :: 0 <= i < |rows| ==>
              && (rows[i].rec.pais.Some? || sel.paises == [])
              && (rows[i].rec.tipo.Some? || sel.tipos == [] || "" in sel.tipos)
              && Between(rows[i].rec.total, sel.lo, sel.hi)
  {
    forall k | 0 <= k < |rows|
      ensures Passes(rows[k], sel) <==>
                && (rows[k].rec.pais.Some? || sel.paises == [])
                && (rows[k].rec.tipo.Some? || sel.tipos == [] || "" in sel.tipos)
                && Between(rows[k].rec.total, sel.lo, sel.hi)
    {
      PassesUnderFullSelection(rows, sel, k);
    }
    if FilterRows(rows, sel) == rows {
      forall k | 0 <= k < |rows| ensures Passes(rows[k], sel) {
        assert rows[k] in multiset(rows);
      }
    }
    if forall k :: 0 <= k < |rows| ==> Passes(rows[k], sel) {
      Seqs.FilterAll(rows, r => Passes(r, sel));
    }
  }

  /** A row with a missing tag has `Tipos_list == [""]`, so selecting every offered
      type drops it unless "" is itself an offered type. */
  lemma {:induction false} MissingTipoDroppedByFullSelection(rows: seq<Row>, sel: Selection, i: nat)
    requires Loaded(rows) && i < |rows| && rows[i].rec.tipo.None?
    requires sel.tipos == Options.TiposUnicos(rows) && sel.tipos != [] && "" !in sel.tipos
    ensures rows[i] !in FilterRows(rows, sel)
  {
    assert rows[i].tiposList == [""];
  }
}
