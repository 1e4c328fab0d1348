/** The "Geografía Pokémon" tables over the filtered rows: the top ten by Total
    (app.py line 164) and the tag frequency table `(Tipo, Conteo)` (lines 181-196). */
module Geography {
  import opened Wrappers
  import opened Table
  import Seqs
  import Text
  import Filtering

  predicate HasTotal(r: Row) {
    r.rec.total.Some?
  }

  function TotalKey(r: Row): int {
    if r.rec.total.Some? then r.rec.total.value else 0
  }

  predicate NoTotal(r: Row) {
    !HasTotal(r)
  }

  /** `a` may precede `b` in `sort_values("Total", ascending=False)`: a larger or
      equal Total, and every missing Total goes last. */
  predicate RanksAtLeast(a: Row, b: Row) {
    b.rec.total.None? || (a.rec.total.Some? && a.rec.total.value >= b.rec.total.value)
  }

  /** `sort_values("Total", ascending=False)`: the rows with a Total in
      non-increasing order, then the rows without one (`na_position="last"`). Ties
      are in no promised order. */
  function SortByTotal(rows: seq<Row>): (s: seq<Row>)
    ensures multiset(s) == multiset(rows)
    ensures forall i, j :: 0 <= i < j < |s| ==> RanksAtLeast(s[i], s[j])
  {
    var withT := Seqs.Filter(rows, HasTotal);
    var without := Seqs.Filter(rows, NoTotal);
    var sorted := Seqs.SortDesc(withT, TotalKey);
    Seqs.PartitionMultiset(rows, HasTotal, NoTotal);
    RanksConcat(withT, sorted, without);
    sorted + without
  }

  lemma {:induction false} RanksConcat(withT: seq<Row>, sorted: seq<Row>, without: seq<Row>)
    requires forall x :: x in withT ==> HasTotal(x)
    requires forall x :: x in without ==> !HasTotal(x)
    requires multiset(sorted) == multiset(withT) && Seqs.SortedDesc(sorted, TotalKey)
    ensures forall i, j :: 0 <= i < j < |sorted + without| ==> RanksAtLeast((sorted + without)[i], (sorted + without)[j])
  {
    var s := sorted + without;
    forall i, j | 0 <= i < j < |s| ensures RanksAtLeast(s[i], s[j]) {
      if j >= |sorted| {
        assert s[j] == without[j - |sorted|];
        assert s[j] in without;
      } else {
        assert s[i] == sorted[i] && s[j] == sorted[j];
        assert sorted[i] in multiset(withT) && sorted[j] in multiset(withT);
        assert sorted[i] in withT && sorted[j] in withT;
        assert TotalKey(sorted[i]) >= TotalKey(sorted[j]);
      }
    }
  }

  function Min(a: int, b: int): int {
    if a < b then a else b
  }

  /** `head(10)` of the sort: how many rows the bar chart shows at most. */
  const TopN: nat := 10

  /** `top10`: the first ten rows of the descending sort by Total, or all of them
      when there are fewer. */
  function Top10(rows: seq<Row>): (top: seq<Row>)
    ensures |top| == Min(TopN, |rows|)
    ensures multiset(top) <= multiset(rows)
    ensures forall i, j :: 0 <= i < j < |top| ==> RanksAtLeast(top[i], top[j])
    ensures forall x, y :: x in multiset(rows) - multiset(top) && y in top ==> RanksAtLeast(y, x)
  {
    var s := SortByTotal(rows);
    TopOfSorted(rows, s, Min(TopN, |rows|));
    s[..Min(TopN, |rows|)]
  }

  /** The first `k` rows of a ranked rearrangement of `rows` are `k` of its rows,
      still ranked, and rank at least as high as every row left out. */
  lemma {:induction false} TopOfSorted(rows: seq<Row>, s: seq<Row>, k: nat)
    requires multiset(s) == multiset(rows) && k <= |rows|
    requires forall i, j :: 0 <= i < j < |s| ==> RanksAtLeast(s[i], s[j])
    ensures k <= |s|
    ensures multiset(s[..k]) <= multiset(rows)
    ensures forall x, y :: x in multiset(rows) - multiset(s[..k]) && y in s[..k] ==> RanksAtLeast(y, x)
  {
    assert |s| == |multiset(s)| == |rows|;
    Seqs.PrefixRest(s, k);
    PrefixDominates(s, k);
  }

  /** In a sequence ordered by `RanksAtLeast`, every row of a prefix ranks at least
      as high as every row after it. */
  lemma {:induction false} PrefixDominates(s: seq<Row>, k: nat)
    requires k <= |s|
    requires forall i, j :: 0 <= i < j < |s| ==> RanksAtLeast(s[i], s[j])
    ensures multiset(s[..k]) <= multiset(s)
    ensures forall x, y :: x in multiset(s[k..]) && y in s[..k] ==> RanksAtLeast(y, x)
  {
    assert s == s[..k] + s[k..];
    forall x, y | x in multiset(s[k..]) && y in s[..k] ensures RanksAtLeast(y, x) {
      var j :| 0 <= j < |s[k..]| && s[k..][j] == x;
      var i :| 0 <= i < k && s[..k][i] == y;
      assert s[i] == y && s[k + j] == x;
    }
  }

  /** On the filtered table every Total is present, so the top ten are simply in
      non-increasing Total order and no row left out has a larger Total. */
  lemma {:induction false} FilteredTop10(rows: seq<Row>, sel: Filtering.Selection)
    ensures var dfF := Filtering.FilterRows(rows, sel);
            var top := Top10(dfF);
            && (forall k :: 0 <= k < |top| ==> top[k].rec.total.Some?)
            && (forall i, j :: 0 <= i < j < |top| ==> top[i].rec.total.value >= top[j].rec.total.value)
            && (forall x, y :: x in multiset(dfF) - multiset(top) && y in top ==> x.rec.total.value <= y.rec.total.value)
  {
    var dfF := Filtering.FilterRows(rows, sel);
    assert forall r :: r in dfF ==> r.rec.total.Some?;
    TopOfTotals(dfF);
  }

  lemma {:induction false} TopOfTotals(rows: seq<Row>)
    requires forall r :: r in rows ==> r.rec.total.Some?
    ensures var top := Top10(rows);
            && (forall k :: 0 <= k < |top| ==> top[k].rec.total.Some?)
            && (forall i, j :: 0 <= i < j < |top| ==> top[i].rec.total.value >= top[j].rec.total.value)
            && (forall x, y :: x in multiset(rows) - multiset(top) && y in top ==> x.rec.total.value <= y.rec.total.value)
  {
    var top := Top10(rows);
    forall y | y in top ensures y in rows {
      assert y in multiset(top);
    }
    forall i, j | 0 <= i < j < |top|
      ensures top[i].rec.total.value >= top[j].rec.total.value
    {
      assert top[j] in top && RanksAtLeast(top[i], top[j]);
    }
    forall x, y | x in multiset(rows) - multiset(top) && y in top
      ensures x.rec.total.Some? && x.rec.total.value <= y.rec.total.value
    {
      assert x in rows;
      assert RanksAtLeast(y, x);
    }
  }

  /** `.str.strip()` applied to every fragment. */
  function StripAll(parts: seq<string>): (r: seq<string>)
    ensures |r| == |parts|
    ensures forall k :: 0 <= k < |parts| ==> r[k] == Text.Strip(parts[k])
  {
    seq(|parts|, k requires 0 <= k < |parts| => Text.Strip(parts[k]))
  }

  /** Fragments that `strip()` keeps as they are pass through unchanged. */
  lemma {:induction false} StripAllTrimmed(parts: seq<string>)
    requires forall k :: 0 <= k < |parts| ==> Text.Strip(parts[k]) == parts[k]
    ensures StripAll(parts) == parts
  {
  }

  /** One row's share of `df_f["Tipo"].str.split("/").explode().dropna()
      .astype(str).str.strip()`: nothing for a missing tag, else its stripped
      fragments. */
  function RowFragments(r: Row): (fs: seq<string>)
    ensures fs == [] <==> r.rec.tipo.None?
    ensures r.rec.tipo.Some? ==> |fs| == |Text.Split(r.rec.tipo.value, '/')|
    ensures r.rec.tipo.Some? ==> forall k :: 0 <= k < |fs| ==> fs[k] == Text.Strip(Text.Split(r.rec.tipo.value, '/')[k])
    ensures forall k :: 0 <= k < |fs| ==> fs[k] == [] || (!Text.IsSpace(fs[k][0]) && !Text.IsSpace(fs[k][|fs[k]| - 1]))
  {
    match r.rec.tipo
    case None => []
    case Some(t) => StripAll(Text.Split(t, '/'))
  }

  /** `tipos_series`: the stripped fragments of every row, in row order. */
  function Fragments(rows: seq<Row>): seq<string> {
    if rows == [] then [] else RowFragments(rows[0]) + Fragments(rows[1..])
  }

  /** A label is in the series exactly when it is a stripped fragment of some row. */
  lemma {:induction false} FragmentsMembers(rows: seq<Row>)
    ensures forall x :: x in Fragments(rows) <==> exists i :: 0 <= i < |rows| && x in RowFragments(rows[i])
  {
    if rows != [] {
      var h, t := rows[0], rows[1..];
      assert Fragments(rows) == RowFragments(h) + Fragments(t);
      FragmentsMembers(t);
      forall x ensures x in Fragments(rows) <==> exists i :: 0 <= i < |rows| && x in RowFragments(rows[i]) {
        if x in Fragments(t) {
          var j :| 0 <= j < |t| && x in RowFragments(t[j]);
          assert rows[j + 1] == t[j];
        }
        if exists i :: 0 <= i < |rows| && x in RowFragments(rows[i]) {
          var i :| 0 <= i < |rows| && x in RowFragments(rows[i]);
          if i > 0 {
            assert rows[i] == t[i - 1];
          }
        }
      }
    }
  }

  lemma {:induction false} FragmentsAppend(a: seq<Row>, b: seq<Row>)
    ensures Fragments(a + b) == Fragments(a) + Fragments(b)
  {
    if a == [] {
      assert a + b == b;
    } else {
      assert (a + b)[0] == a[0] && (a + b)[1..] == a[1..] + b;
      assert Fragments(a + b) == RowFragments(a[0]) + Fragments(a[1..] + b);
      FragmentsAppend(a[1..], b);
    }
  }

  lemma {:induction false} FragmentsCons(r: Row, rest: seq<Row>)
    ensures Fragments([r] + rest) == RowFragments(r) + Fragments(rest)
  {
    assert ([r] + rest)[0] == r && ([r] + rest)[1..] == rest;
  }

  /** A row with a missing tag adds no fragment: removing it leaves the series as it is. */
  lemma {:induction false} MissingTagContributesNothing(rows: seq<Row>, i: nat)
    requires i < |rows| && rows[i].rec.tipo.None?
    ensures Fragments(rows) == Fragments(rows[..i] + rows[i + 1..])
  {
    assert rows == rows[..i] + ([rows[i]] + rows[i + 1..]);
    SkipNoFragments(rows[..i], rows[i], rows[i + 1..]);
  }

  /** Dropping a row without fragments from between two others. */
  lemma {:induction false} SkipNoFragments(pre: seq<Row>, x: Row, post: seq<Row>)
    requires RowFragments(x) == []
    ensures Fragments(pre + ([x] + post)) == Fragments(pre + post)
  {
    FragmentsAppend(pre, [x] + post);
    FragmentsCons(x, post);
    assert Fragments([x] + post) == Fragments(post);
    FragmentsAppend(pre, post);
  }

  /** The series has one entry per "/"-fragment of every non-missing tag: stripping
      never drops a fragment, not even an empty one. */
  lemma {:induction false} FragmentsLength(rows: seq<Row>)
    ensures |Fragments(rows)| == FragmentTotal(rows)
  {
    if rows != [] {
      FragmentsLength(rows[1..]);
    }
  }

  /** The number of "/"-fragments of the non-missing tags of `rows`. */
  function FragmentTotal(rows: seq<Row>): nat {
    if rows == [] then 0
    else (if rows[0].rec.tipo.Some? then |Text.Split(rows[0].rec.tipo.value, '/')| else 0) + FragmentTotal(rows[1..])
  }

  /** One row of `conteo_tipos`, columns Tipo and Conteo. */
  datatype TipoCount = TipoCount(tipo: string, conteo: nat)

  function SumConteo(t: seq<TipoCount>): nat {
    if t == [] then 0 else t[0].conteo + SumConteo(t[1..])
  }

  function CountPairs(labels: seq<string>, frags: seq<string>): (t: seq<TipoCount>)
    ensures |t| == |labels|
    ensures forall i :: 0 <= i < |t| ==> t[i] == TipoCount(labels[i], multiset(frags)[labels[i]])
  {
    if labels == [] then [] else [TipoCount(labels[0], multiset(frags)[labels[0]])] + CountPairs(labels[1..], frags)
  }

  lemma {:induction false} SumAppend(x: seq<TipoCount>, y: seq<TipoCount>)
    ensures SumConteo(x + y) == SumConteo(x) + SumConteo(y)
  {
    if x == [] {
      assert x + y == y;
    } else {
      assert (x + y)[1..] == x[1..] + y;
      SumAppend(x[1..], y);
    }
  }

  /** Taking one entry out of the table lowers its total by that entry's count. */
  lemma {:induction false} SumRemove(b: seq<TipoCount>, k: nat)
    requires k < |b|
    ensures SumConteo(b) == b[k].conteo + SumConteo(b[..k] + b[k + 1..])
  {
    var pre, x, post := b[..k], b[k], b[k + 1..];
    assert b[k..] == [x] + post;
    assert b == pre + b[k..];
    SumAppend(pre, [x] + post);
    SumAppend(pre, post);
    assert ([x] + post)[1..] == post;
    assert SumConteo([x] + post) == x.conteo + SumConteo(post);
  }

  /** Reordering the count table does not change its total. */
  lemma {:induction false} SumPerm(a: seq<TipoCount>, b: seq<TipoCount>)
    requires multiset(a) == multiset(b)
    ensures SumConteo(a) == SumConteo(b)
    decreases |a|
  {
    if a == [] {
      assert |b| == |multiset(b)| == 0;
    } else {
      var h := a[0];
      assert h in multiset(b) by {
        assert h in a;
      }
      var k :| 0 <= k < |b| && b[k] == h;
      var rest := b[..k] + b[k + 1..];
      SumRemove(b, k);
      Seqs.PermTail(a, b, k);
      SumPerm(a[1..], rest);
    }
  }

  lemma {:induction false} CountPairsCons(labels: seq<string>, f: string, rest: seq<string>)
    ensures SumConteo(CountPairs(labels, [f] + rest)) == multiset(labels)[f] + SumConteo(CountPairs(labels, rest))
  {
    if labels != [] {
      assert labels == [labels[0]] + labels[1..];
      CountPairsCons(labels[1..], f, rest);
    }
  }

  /** The first fragment is counted exactly once, under its own label. */
  lemma {:induction false} CountPairsStep(labels: seq<string>, frags: seq<string>)
    requires Seqs.Distinct(labels) && frags != [] && frags[0] in labels
    ensures SumConteo(CountPairs(labels, frags)) == 1 + SumConteo(CountPairs(labels, frags[1..]))
  {
    var f, rest := frags[0], frags[1..];
    assert frags == [f] + rest;
    CountPairsCons(labels, f, rest);
    Seqs.DistinctCount(labels, f);
  }

  /** Counting every fragment once per distinct label accounts for all fragments. */
  lemma {:induction false} CountPairsSum(labels: seq<string>, frags: seq<string>)
    requires Seqs.Distinct(labels)
    requires forall x :: x in frags ==> x in labels
    ensures SumConteo(CountPairs(labels, frags)) == |frags|
  {
    if frags == [] {
      CountPairsZero(labels);
    } else {
      assert frags[0] in frags;
      CountPairsStep(labels, frags);
      assert forall x :: x in frags[1..] ==> x in frags;
      CountPairsSum(labels, frags[1..]);
    }
  }

  lemma {:induction false} CountPairsZero(labels: seq<string>)
    ensures SumConteo(CountPairs(labels, [])) == 0
  {
    if labels != [] {
      CountPairsZero(labels[1..]);
    }
  }

  /** `value_counts()`: each distinct fragment once, with its number of occurrences. */
  function ValueCounts(frags: seq<string>): (t: seq<TipoCount>)
    ensures Seqs.Distinct(t)
    ensures forall i, j :: 0 <= i < j < |t| ==> t[i].tipo != t[j].tipo
    ensures forall x :: x in frags <==> exists i :: 0 <= i < |t| && t[i].tipo == x
    ensures forall i :: 0 <= i < |t| ==> t[i].conteo == multiset(frags)[t[i].tipo]
    ensures SumConteo(t) == |frags|
  {
    var labels := Seqs.Dedup(frags);
    CountPairsSum(labels, frags);
    var t := CountPairs(labels, frags);
    assert forall x :: x in labels ==> exists i :: 0 <= i < |t| && t[i].tipo == x by {
      forall x | x in labels ensures exists i :: 0 <= i < |t| && t[i].tipo == x {
        var i :| 0 <= i < |labels| && labels[i] == x;
        assert t[i].tipo == x;
      }
    }
    t
  }

  /** `conteo_tipos`: the frequency table of the stripped fragments of the filtered
      rows, by non-increasing Conteo. Every fragment appears once with its number of
      occurrences, so the counts add up to the number of fragments; ties are in no
      promised order. */
  function Conteo(dfF: seq<Row>): (table: seq<TipoCount>)
    ensures forall i, j :: 0 <= i < j < |table| ==> table[i].tipo != table[j].tipo
    ensures forall x :: x in Fragments(dfF) <==> exists i :: 0 <= i < |table| && table[i].tipo == x
    ensures forall i :: 0 <= i < |table| ==> table[i].conteo == multiset(Fragments(dfF))[table[i].tipo]
    ensures SumConteo(table) == |Fragments(dfF)|
    ensures forall i, j :: 0 <= i < j < |table| ==> table[i].conteo >= table[j].conteo
  {
    var frags := Fragments(dfF);
    var counts := ValueCounts(frags);
    var table := Seqs.SortDesc(counts, (p: TipoCount) => p.conteo as int);
    PermutedCounts(frags, counts, table);
    table
  }

  /** Any rearrangement of the `value_counts` table is still a correct count table. */
  lemma {:induction false} PermutedCounts(frags: seq<string>, counts: seq<TipoCount>, table: seq<TipoCount>)
    requires Seqs.Distinct(counts)
    requires forall x :: x in frags <==> exists i :: 0 <= i < |counts| && counts[i].tipo == x
    requires forall i :: 0 <= i < |counts| ==> counts[i].conteo == multiset(frags)[counts[i].tipo]
    requires SumConteo(counts) == |frags|
    requires multiset(table) == multiset(counts)
    ensures forall i, j :: 0 <= i < j < |table| ==> table[i].tipo != table[j].tipo
    ensures forall x :: x in frags <==> exists i :: 0 <= i < |table| && table[i].tipo == x
    ensures forall i :: 0 <= i < |table| ==> table[i].conteo == multiset(frags)[table[i].tipo]
    ensures SumConteo(table) == |frags|
  {
    SumPerm(table, counts);
    Seqs.DistinctPerm(counts, table);
    forall k | 0 <= k < |table| ensures table[k].conteo == multiset(frags)[table[k].tipo] {
      assert table[k] in multiset(counts);
    }
    forall x | x in frags ensures exists i :: 0 <= i < |table| && table[i].tipo == x {
      var i :| 0 <= i < |counts| && counts[i].tipo == x;
      assert counts[i] in multiset(table);
      var j :| 0 <= j < |table| && table[j] == counts[i];
    }
    forall x | exists i :: 0 <= i < |table| && table[i].tipo == x ensures x in frags {
      var i :| 0 <= i < |table| && table[i].tipo == x;
      assert table[i] in multiset(counts);
      var j :| 0 <= j < |counts| && counts[j] == table[i];
    }
  }
}
