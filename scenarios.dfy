/** Small concrete tables that pin down the edge cases of the dashboard's
    pipeline: the `idxmax` tie-break, tag overlap, the inclusive range and the
    tag count. */
module Scenarios {
  import opened Wrappers
  import opened Table
  import Filtering
  import Explorer
  import Geography
  import Text

  function Mon(nombre: string, tipo: Option<string>, pais: Option<string>, total: Option<int>): Row {
    var r := Record(0, nombre, tipo, pais, total, None, None, None, None, None, None);
    Row(r, TiposList(tipo))
  }

  /** Two rows share the largest Total: the card names the first of them. */
  lemma {:induction false} FirstOccurrenceWins()
    ensures Explorer.MaxWithName([Mon("A", None, None, Some(500)), Mon("B", None, None, Some(500)),
                                  Mon("C", None, None, Some(300))], Total)
         == Some(Explorer.Metric(500, "A"))
  {
    var rows := [Mon("A", None, None, Some(500)), Mon("B", None, None, Some(500)), Mon("C", None, None, Some(300))];
    assert rows[..2][..1] == [rows[0]];
  }

  /** "Fire/Flying" passes a selection of Water and Fire: one shared type suffices. */
  lemma {:induction false} OverlapNotContainment()
    ensures Filtering.TieneTipo(["Fire", "Flying"], ["Water", "Fire"])
    ensures !Filtering.TieneTipo(["Fire", "Flying"], ["Water"])
  {
    assert "Fire" in ["Water", "Fire"];
  }

  /** A Total equal to the upper end of the range passes; one more does not. */
  lemma {:induction false} RangeIsInclusive(hi: int)
    ensures Filtering.Between(Some(hi), hi - 10, hi)
    ensures !Filtering.Between(Some(hi + 1), hi - 10, hi)
    ensures !Filtering.Between(None, hi - 10, hi)
  {
  }

  lemma {:induction false} SplitFireFlying()
    ensures Text.Split("Fire/Flying", '/') == ["Fire", "Flying"]
  {
    assert Text.Join(["Fire", "Flying"], '/') == "Fire/Flying";
    Text.SplitJoin(["Fire", "Flying"], '/');
  }

  /** Neither tag has surrounding whitespace, so `strip()` keeps it. */
  lemma {:induction false} StripKeeps(x: string)
    requires x == "Fire" || x == "Flying"
    ensures Text.Strip(x) == x
  {
    Text.StripTrimmed(x);
  }

  lemma {:induction false} StripTags(parts: seq<string>)
    requires parts == ["Fire", "Flying"] || parts == ["Fire"]
    ensures Geography.StripAll(parts) == parts
  {
    forall k | 0 <= k < |parts|
      ensures Text.Strip(parts[k]) == parts[k]
    {
      StripKeeps(parts[k]);
    }
    Geography.StripAllTrimmed(parts);
  }

  lemma {:induction false} FireFlyingFragments(r: Row)
    requires r.rec.tipo == Some("Fire/Flying")
    ensures Geography.RowFragments(r) == ["Fire", "Flying"]
  {
    SplitFireFlying();
    StripTags(Text.Split(r.rec.tipo.value, '/'));
  }

  lemma {:induction false} SplitFire()
    ensures Text.Split("Fire", '/') == ["Fire"]
  {
    assert Text.Join(["Fire"], '/') == "Fire";
    Text.SplitJoin(["Fire"], '/');
  }

  lemma {:induction false} FireFragments(r: Row)
    requires r.rec.tipo == Some("Fire")
    ensures Geography.RowFragments(r) == ["Fire"]
  {
    SplitFire();
    StripTags(Text.Split(r.rec.tipo.value, '/'));
  }

  /** The series of three rows is their fragments one after the other. */
  lemma {:induction false} ThreeRows(a: Row, b: Row, c: Row)
    ensures Geography.Fragments([a, b, c])
      == Geography.RowFragments(a) + Geography.RowFragments(b) + Geography.RowFragments(c)
  {
    assert [a, b, c][1..] == [b, c] && [b, c][1..] == [c] && [c][1..] == [];
    assert Geography.Fragments([c]) == Geography.RowFragments(c) + [];
    assert Geography.Fragments([b, c]) == Geography.RowFragments(b) + Geography.RowFragments(c);
  }

  /** Rows tagged "Fire/Flying", "Fire" and a missing tag give the series Fire,
      Flying, Fire. */
  lemma {:induction false} TagSeriesExample(a: Row, b: Row, c: Row)
    requires a.rec.tipo == Some("Fire/Flying") && b.rec.tipo == Some("Fire") && c.rec.tipo.None?
    ensures Geography.Fragments([a, b, c]) == ["Fire", "Flying", "Fire"]
  {
    ThreeRows(a, b, c);
    FireFlyingFragments(a);
    FireFragments(b);
    assert Geography.RowFragments(c) == [];
    assert ["Fire", "Flying"] + ["Fire"] + [] == ["Fire", "Flying", "Fire"];
  }

  lemma {:induction false} CountFireFlying()
    ensures multiset(["Fire", "Flying", "Fire"])["Fire"] == 2
    ensures multiset(["Fire", "Flying", "Fire"])["Flying"] == 1
  {
    var fire, flying := "Fire", "Flying";
    assert fire != flying by {
      assert fire[1] != flying[1];
    }
    assert multiset([fire, flying, fire]) == multiset{fire} + multiset{flying} + multiset{fire} by {
      assert [fire, flying, fire] == [fire] + [flying] + [fire];
    }
  }

  /** The same rows count two Fire and one Flying. */
  lemma {:induction false} TagCountExample(a: Row, b: Row, c: Row)
    requires a.rec.tipo == Some("Fire/Flying") && b.rec.tipo == Some("Fire") && c.rec.tipo.None?
    ensures multiset(Geography.Fragments([a, b, c]))["Fire"] == 2
    ensures multiset(Geography.Fragments([a, b, c]))["Flying"] == 1
  {
    TagSeriesExample(a, b, c);
    CountFireFlying();
  }

  /** The series `x`, `y`, `x` holds `x` twice, `y` once and nothing else. */
  lemma {:induction false} XyxCounts(x: string, y: string)
    requires x != y
    ensures multiset([x, y, x])[x] == 2 && multiset([x, y, x])[y] == 1
    ensures forall f :: f in [x, y, x] <==> f == x || f == y
  {
    assert multiset([x, y, x]) == multiset{x} + multiset{y} + multiset{x} by {
      assert [x, y, x] == [x] + [y] + [x];
    }
  }

  /** A count table over the series `x`, `y`, `x` is exactly `x` with 2, then `y`
      with 1. */
  lemma {:induction false} TwoLabelTable(t: seq<Geography.TipoCount>, x: string, y: string)
    requires x != y
    requires forall i, j :: 0 <= i < j < |t| ==> t[i].tipo != t[j].tipo
    requires forall f :: f in [x, y, x] <==> exists i :: 0 <= i < |t| && t[i].tipo == f
    requires forall i :: 0 <= i < |t| ==> t[i].conteo == multiset([x, y, x])[t[i].tipo]
    requires forall i, j :: 0 <= i < j < |t| ==> t[i].conteo >= t[j].conteo
    ensures t == [Geography.TipoCount(x, 2), Geography.TipoCount(y, 1)]
  {
    XyxCounts(x, y);
    assert x in [x, y, x] && y in [x, y, x];
    var i :| 0 <= i < |t| && t[i].tipo == x;
    var j :| 0 <= j < |t| && t[j].tipo == y;
    assert t[0].tipo in [x, y, x];
    assert i == 0;
    assert t[1].tipo in [x, y, x];
    assert j == 1;
    assert t[|t| - 1].tipo in [x, y, x];
  }

  /** Any rows whose series is `x`, `y`, `x` count `x` twice, then `y` once. */
  lemma {:induction false} ConteoOfXyx(rows: seq<Row>, x: string, y: string)
    requires x != y && Geography.Fragments(rows) == [x, y, x]
    ensures Geography.Conteo(rows) == [Geography.TipoCount(x, 2), Geography.TipoCount(y, 1)]
  {
    TwoLabelTable(Geography.Conteo(rows), x, y);
  }

  /** The count table of those rows is Fire with 2, then Flying with 1. */
  lemma {:induction false} ConteoExample(a: Row, b: Row, c: Row)
    requires a.rec.tipo == Some("Fire/Flying") && b.rec.tipo == Some("Fire") && c.rec.tipo.None?
    ensures Geography.Conteo([a, b, c]) == [Geography.TipoCount("Fire", 2), Geography.TipoCount("Flying", 1)]
  {
    var fire, flying := "Fire", "Flying";
    assert fire != flying by {
      assert fire[1] != flying[1];
    }
    TagSeriesExample(a, b, c);
    ConteoOfXyx([a, b, c], fire, flying);
  }
}
