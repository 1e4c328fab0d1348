/** The choices offered by the sidebar's two multiselects, computed from the whole
    loaded table (app.py lines 46-47). */
module Options {
  import opened Wrappers
  import opened Table
  import Text

  /** `df["País"].dropna()`: the non-missing countries, in row order. */
  function Countries(rows: seq<Row>): (cs: seq<string>)
    ensures forall p :: p in cs <==> exists i :: 0 <= i < |rows| && rows[i].rec.pais == Some(p)
  {
    if rows == [] then []
    else
      var rest := Countries(rows[1..]);
      assert forall i :: 1 <= i < |rows| ==> rows[i] == rows[1..][i - 1];
      match rows[0].rec.pais
      case Some(p) => [p] + rest
      case None => rest
  }

  /** `paises`: every non-missing country that occurs, once, in increasing order. */
  function Paises(rows: seq<Row>): (ps: seq<string>)
    ensures Text.StrictlySorted(ps)
    ensures forall p :: p in ps <==> exists i :: 0 <= i < |rows| && rows[i].rec.pais == Some(p)
  {
    Text.SortedSet(Countries(rows))
  }

  /** The generator behind `tipos_unicos`: every "/"-fragment of every non-missing
      tag, unstripped. */
  function TagFragments(rows: seq<Row>): (ts: seq<string>)
    ensures forall t :: t in ts <==> exists i :: 0 <= i < |rows| && rows[i].rec.tipo.Some?
                                          && t in Text.Split(rows[i].rec.tipo.value, '/')
  {
    if rows == [] then []
    else
      var rest := TagFragments(rows[1..]);
      assert forall i :: 1 <= i < |rows| ==> rows[i] == rows[1..][i - 1];
      match rows[0].rec.tipo
      case Some(t) => Text.Split(t, '/') + rest
      case None => rest
  }

  /** `tipos_unicos`: every fragment of a non-missing tag, once, in increasing order. */
  function TiposUnicos(rows: seq<Row>): (ts: seq<string>)
    ensures Text.StrictlySorted(ts)
    ensures forall t :: t in ts <==> exists i :: 0 <= i < |rows| && rows[i].rec.tipo.Some?
                                          && t in Text.Split(rows[i].rec.tipo.value, '/')
  {
    Text.SortedSet(TagFragments(rows))
  }

  /** The option lists depend only on which values occur: any strictly sorted list of
      exactly those countries is `Paises`. */
  lemma {:induction false} PaisesDetermined(rows: seq<Row>, ps: seq<string>)
    requires Text.StrictlySorted(ps)
    requires forall p :: p in ps <==> exists i :: 0 <= i < |rows| && rows[i].rec.pais == Some(p)
    ensures ps == Paises(rows)
  {
    Text.SortedListingUnique(ps, Paises(rows));
  }
}
