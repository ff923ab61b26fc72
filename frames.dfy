/** The data frames the application handles: the wide table the SGS client
    returns (one row per observation date, one column per series) and the
    long form it is melted into for charting. Dates and cell values are
    opaque type parameters; the cells are floating point in the application
    and nothing here looks inside them. */
module Frames {

  /** A column label: the integer series code the SGS client puts on a
      column, or the slug it is renamed to. */
  datatype Label = Code(code: int) | Name(slug: string)

  /** A table stored column by column: `columns[j][i]` is the cell in row
      `i` (dated `index[i]`) of the column labelled `labels[j]`. */
  datatype Table<D, V> = Table(index: seq<D>, labels: seq<Label>, columns: seq<seq<V>>)

  /** One label per column and one cell per row in every column. */
  predicate Rectangular<D, V>(t: Table<D, V>) {
    && |t.columns| == |t.labels|
    && forall j :: 0 <= j < |t.columns| ==> |t.columns[j]| == |t.index|
  }

  /** A pandas DataFrame is always rectangular. */
  type Frame<D, V> = t: Table<D, V> | Rectangular(t) witness Table([], [], [])

  /** `pd.DataFrame()`: no rows and no columns. */
  function EmptyFrame<D, V>(): (t: Frame<D, V>)
    ensures |t.index| == 0 && |t.labels| == 0
  {
    Table([], [], [])
  }

  /** `df.rename(columns=m)` on the labels: a column whose label is a key of
      `m` takes the mapped slug; any other column keeps its label. */
  function Relabel(labels: seq<Label>, m: map<int, string>): (r: seq<Label>)
    ensures |r| == |labels|
    ensures forall j :: 0 <= j < |labels| ==>
      r[j] == if labels[j].Code? && labels[j].code in m then Name(m[labels[j].code]) else labels[j]
  {
    if labels == [] then []
    else
      var l := labels[0];
      [if l.Code? && l.code in m then Name(m[l.code]) else l] + Relabel(labels[1..], m)
  }

  /** Renaming the columns of a frame touches nothing but the labels. */
  function Rename<D, V>(t: Frame<D, V>, m: map<int, string>): (r: Frame<D, V>)
    ensures r.index == t.index && r.columns == t.columns
    ensures r.labels == Relabel(t.labels, m)
  {
    t.(labels := Relabel(t.labels, m))
  }

  /** Renaming with a mapping that holds none of the codes changes nothing. */
  lemma RelabelUntouched(labels: seq<Label>, m: map<int, string>)
    requires forall j :: 0 <= j < |labels| ==> labels[j].Code? ==> labels[j].code !in m
    ensures Relabel(labels, m) == labels
  {
  }

  /** One long-form record: the `Data`, `Variável` and `Valor` columns of
      the melted frame. */
  datatype Record<D, V> = Record(date: D, variable: Label, value: V)

  /** The records of one column, in row order. */
  function MeltColumn<D, V>(index: seq<D>, heading: Label, column: seq<V>): (r: seq<Record<D, V>>)
    requires |column| == |index|
  {
    seq(|index|, i requires 0 <= i < |index| => Record(index[i], heading, column[i]))
  }

  /** The records of a list of columns, column after column. */
  function MeltColumns<D, V>(index: seq<D>, labels: seq<Label>, columns: seq<seq<V>>): (r: seq<Record<D, V>>)
    requires |columns| == |labels|
    requires forall j :: 0 <= j < |columns| ==> |columns[j]| == |index|
    ensures |r| == |columns| * |index|
  {
    if columns == [] then []
    else
      var rest := MeltColumns(index, labels[1..], columns[1..]);
      assert |rest| + |index| == |columns| * |index| by {
        assert (|columns| - 1) * |index| + |index| == |columns| * |index|;
      }
      MeltColumn(index, labels[0], columns[0]) + rest
  }

  /** `df.reset_index().melt(id_vars='index', ...)`: an n-row, m-column frame
      becomes its n·m cells as (date, variable, value) records. */
  function Melt<D, V>(t: Frame<D, V>): (r: seq<Record<D, V>>)
    ensures |r| == |t.labels| * |t.index|
  {
    MeltColumns(t.index, t.labels, t.columns)
  }

  /** The record of column j, row i sits at position j·n + i: the records
      run column by column and, within a column, in row order. */
  lemma {:induction false} MeltColumnsAt<D, V>(index: seq<D>, labels: seq<Label>, columns: seq<seq<V>>, j: nat, i: nat)
    requires |columns| == |labels|
    requires forall j :: 0 <= j < |columns| ==> |columns[j]| == |index|
    requires j < |columns| && i < |index|
    ensures Cell(|columns|, |index|, j, i) < |MeltColumns(index, labels, columns)|
    ensures MeltColumns(index, labels, columns)[Cell(|columns|, |index|, j, i)] == Record(index[i], labels[j], columns[j][i])
  {
    var n := |index|;
    if j > 0 {
      MeltColumnsAt(index, labels[1..], columns[1..], j - 1, i);
      assert j * n + i == n + ((j - 1) * n + i);
    }
  }

  /** Melt places the cell of column j, row i at position j·n + i. */
  lemma MeltAt<D, V>(t: Frame<D, V>, j: nat, i: nat)
    requires j < |t.labels| && i < |t.index|
    ensures j * |t.index| + i < |Melt(t)|
    ensures Melt(t)[j * |t.index| + i] == Record(t.index[i], t.labels[j], t.columns[j][i])
  {
    MeltColumnsAt(t.index, t.labels, t.columns, j, i);
  }

  /** The records of one variable, in the order they appear: the group
      `groupby('Variável')` hands to one chart trace. */
  function Group<D, V>(records: seq<Record<D, V>>, variable: Label): seq<Record<D, V>> {
    if records == [] then []
    else if records[0].variable == variable then [records[0]] + Group(records[1..], variable)
    else Group(records[1..], variable)
  }

  /** Reassembles a wide table from long-form records with `rows` rows per
      variable: the dates of the first block, one column per block. */
  function Unmelt<D, V>(rows: nat, records: seq<Record<D, V>>): (t: Frame<D, V>)
    requires 0 < rows && |records| % rows == 0
  {
    var m := |records| / rows;
    assert m * rows == |records|;
    Table(
      if m == 0 then [] else seq(rows, i requires 0 <= i < rows => records[i].date),
      seq(m, j requires 0 <= j < m => records[Cell(m, rows, j, 0)].variable),
      seq(m, j requires 0 <= j < m =>
        seq(rows, i requires 0 <= i < rows => records[Cell(m, rows, j, i)].value)))
  }

  /** The position of cell (row i, column j) among the records. */
  function Cell(m: nat, n: nat, j: nat, i: nat): (p: nat)
    requires j < m && i < n
    ensures p == j * n + i && p < m * n
  {
    assert (j + 1) * n <= m * n;
    j * n + i
  }

  /** A product of non-negative numbers is non-negative: a helper of
      `DivideProduct`. */
  lemma MulNonneg(a: int, b: int)
    requires a >= 0 && b >= 0
    ensures a * b >= 0
  {
  }

  /** Exact division of a product. */
  lemma DivideProduct(m: nat, n: nat)
    requires 0 < n
    ensures (m * n) / n == m && (m * n) % n == 0
  {
    var q, r := (m * n) / n, (m * n) % n;
    assert m * n == q * n + r && 0 <= r < n;
    assert (m - q) * n == r by {
      assert (m - q) * n == m * n - q * n;
    }
    if m > q {
      MulNonneg(m - q - 1, n);
    } else if m < q {
      MulNonneg(q - m - 1, n);
    }
  }

  /** Melting a frame with at least one row and one column and reassembling
      it by variable blocks in row order gives back the frame exactly. */
  lemma MeltRoundTrip<D, V>(t: Frame<D, V>)
    requires 0 < |t.index| && 0 < |t.labels|
    ensures |Melt(t)| % |t.index| == 0 && Unmelt(|t.index|, Melt(t)) == t
  {
    UnmeltIndex(t);
    UnmeltLabels(t);
    UnmeltColumns(t);
  }

  lemma UnmeltIndex<D, V>(t: Frame<D, V>)
    requires 0 < |t.index| && 0 < |t.labels|
    ensures |Melt(t)| % |t.index| == 0 && Unmelt(|t.index|, Melt(t)).index == t.index
  {
    var n, m := |t.index|, |t.labels|;
    DivideProduct(m, n);
    var u := Unmelt(n, Melt(t));
    forall i | 0 <= i < n ensures u.index[i] == t.index[i] {
      MeltAt(t, 0, i);
    }
  }

  lemma UnmeltLabels<D, V>(t: Frame<D, V>)
    requires 0 < |t.index| && 0 < |t.labels|
    ensures |Melt(t)| % |t.index| == 0 && Unmelt(|t.index|, Melt(t)).labels == t.labels
  {
    var n, m := |t.index|, |t.labels|;
    DivideProduct(m, n);
    var u := Unmelt(n, Melt(t));
    forall j | 0 <= j < m ensures u.labels[j] == t.labels[j] {
      MeltAt(t, j, 0);
    }
  }

  lemma UnmeltColumns<D, V>(t: Frame<D, V>)
    requires 0 < |t.index| && 0 < |t.labels|
    ensures |Melt(t)| % |t.index| == 0 && Unmelt(|t.index|, Melt(t)).columns == t.columns
  {
    var n, m := |t.index|, |t.labels|;
    DivideProduct(m, n);
    var u := Unmelt(n, Melt(t));
    forall j | 0 <= j < m ensures u.columns[j] == t.columns[j] {
      forall i | 0 <= i < n ensures u.columns[j][i] == t.columns[j][i] {
        MeltAt(t, j, i);
      }
    }
  }

  /** Grouping distributes over concatenation. */
  lemma {:induction false} GroupAppend<D, V>(a: seq<Record<D, V>>, b: seq<Record<D, V>>, v: Label)
    ensures Group(a + b, v) == Group(a, v) + Group(b, v)
  {
    if a == [] {
      assert a + b == b;
    } else {
      assert (a + b)[1..] == a[1..] + b;
      GroupAppend(a[1..], b, v);
    }
  }

  /** The group of a column's own label is the whole column; the group of
      any other label is empty. */
  lemma {:induction false} GroupColumn<D, V>(index: seq<D>, heading: Label, column: seq<V>, v: Label)
    requires |column| == |index|
    ensures Group(MeltColumn(index, heading, column), v) == if v == heading then MeltColumn(index, heading, column) else []
  {
    if index != [] {
      var recs := MeltColumn(index, heading, column);
      assert recs[1..] == MeltColumn(index[1..], heading, column[1..]);
      GroupColumn(index[1..], heading, column[1..], v);
    }
  }

  /** Labels that are pairwise distinct. */
  predicate DistinctLabels(labels: seq<Label>) {
    forall j, k :: 0 <= j < k < |labels| ==> labels[j] != labels[k]
  }

  /** Over distinct labels, the group of a variable in the melted records
      holds exactly that variable's column, dated by the index, in row order:
      the data of its chart trace. */
  lemma {:induction false} GroupColumns<D, V>(index: seq<D>, labels: seq<Label>, columns: seq<seq<V>>, j: nat)
    requires |columns| == |labels|
    requires forall j :: 0 <= j < |columns| ==> |columns[j]| == |index|
    requires DistinctLabels(labels) && j < |labels|
    ensures Group(MeltColumns(index, labels, columns), labels[j]) == MeltColumn(index, labels[j], columns[j])
  {
    var head := MeltColumn(index, labels[0], columns[0]);
    var rest := MeltColumns(index, labels[1..], columns[1..]);
    GroupAppend(head, rest, labels[j]);
    GroupColumn(index, labels[0], columns[0], labels[j]);
    if j == 0 {
      GroupAbsent(index, labels[1..], columns[1..], labels[0]);
    } else {
      GroupColumns(index, labels[1..], columns[1..], j - 1);
    }
  }

  /** A label that heads none of the columns has an empty group. */
  lemma {:induction false} GroupAbsent<D, V>(index: seq<D>, labels: seq<Label>, columns: seq<seq<V>>, v: Label)
    requires |columns| == |labels|
    requires forall j :: 0 <= j < |columns| ==> |columns[j]| == |index|
    requires v !in labels
    ensures Group(MeltColumns(index, labels, columns), v) == []
  {
    if columns != [] {
      var head := MeltColumn(index, labels[0], columns[0]);
      var rest := MeltColumns(index, labels[1..], columns[1..]);
      GroupAppend(head, rest, v);
      GroupColumn(index, labels[0], columns[0], v);
      GroupAbsent(index, labels[1..], columns[1..], v);
    }
  }

  /** Over distinct labels, grouping the melted frame by the label of
      column j gives back column j paired with the dates. */
  lemma GroupOfMelt<D, V>(t: Frame<D, V>, j: nat)
    requires DistinctLabels(t.labels) && j < |t.labels|
    ensures |Group(Melt(t), t.labels[j])| == |t.index|
    ensures forall i :: 0 <= i < |t.index| ==>
      Group(Melt(t), t.labels[j])[i] == Record(t.index[i], t.labels[j], t.columns[j][i])
  {
    GroupColumns(t.index, t.labels, t.columns, j);
  }
}
