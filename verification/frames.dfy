/** The tabular structure the column helpers work on: an ordered sequence of
    labelled columns. Labels keep their order and may repeat, as the column
    labels of a pandas DataFrame do. */
module Frames {

  datatype Column<Cell> = Column(name: string, cells: seq<Cell>)

  type Frame<Cell> = seq<Column<Cell>>

  /** `df.columns`: the labels, in column order. */
  function Names<Cell>(df: Frame<Cell>): (ns: seq<string>)
    ensures |ns| == |df|
    ensures forall i :: 0 <= i < |df| ==> ns[i] == df[i].name
  {
    seq(|df|, i requires 0 <= i < |df| => df[i].name)
  }

  /** The labels of a non-empty frame are its first label followed by the
      labels of the rest. */
  lemma NamesCons<Cell>(df: Frame<Cell>)
    requires df != []
    ensures Names(df) == [df[0].name] + Names(df[1..])
  {
    assert forall i :: 0 <= i < |df[1..]| ==> df[1..][i] == df[i + 1];
  }

  /** The labels of two frames side by side are the two label lists joined. */
  lemma NamesAppend<Cell>(a: Frame<Cell>, b: Frame<Cell>)
    ensures Names(a + b) == Names(a) + Names(b)
  {
    assert forall i :: 0 <= i < |a| ==> (a + b)[i] == a[i];
    assert forall i :: 0 <= i < |b| ==> (a + b)[|a| + i] == b[i];
  }

  /** Every column holds one cell per row. */
  ghost predicate Rectangular<Cell>(df: Frame<Cell>) {
    forall i, j :: 0 <= i < |df| && 0 <= j < |df| ==> |df[i].cells| == |df[j].cells|
  }

  /** The columns whose labels satisfy `keep`, in their original order. */
  function Select<Cell>(df: Frame<Cell>, keep: string -> bool): (r: Frame<Cell>)
    ensures multiset(r) <= multiset(df)
    ensures forall i :: 0 <= i < |r| ==> keep(r[i].name)
    ensures forall i :: 0 <= i < |df| && keep(df[i].name) ==> df[i] in r
  {
    if df == [] then []
    else
      assert df == [df[0]] + df[1..];
      (if keep(df[0].name) then [df[0]] else []) + Select(df[1..], keep)
  }

  /** One step of the filter: the verdict on the first column, then the
      rest. */
  lemma SelectCons<Cell>(df: Frame<Cell>, keep: string -> bool)
    requires df != []
    ensures Select(df, keep) == (if keep(df[0].name) then [df[0]] else []) + Select(df[1..], keep)
  {}

  /** Selection works column by column: selecting from two frames laid side
      by side is selecting from each and laying the results side by side. So
      survivors keep their relative order. */
  lemma {:induction false} SelectAppend<Cell>(a: Frame<Cell>, b: Frame<Cell>, keep: string -> bool)
    ensures Select(a + b, keep) == Select(a, keep) + Select(b, keep)
  {
    if a == [] {
      assert a + b == b;
    } else {
      assert (a + b)[0] == a[0];
      assert (a + b)[1..] == a[1..] + b;
      SelectAppend(a[1..], b, keep);
    }
  }

  /** Only the verdict of `keep` on the labels present matters. */
  lemma {:induction false} SelectCongruent<Cell>(df: Frame<Cell>, p: string -> bool, q: string -> bool)
    requires forall i :: 0 <= i < |df| ==> p(df[i].name) == q(df[i].name)
    ensures Select(df, p) == Select(df, q)
  {
    if df != [] {
      assert p(df[0].name) == q(df[0].name);
      assert forall i :: 0 <= i < |df[1..]| ==> df[1..][i] == df[i + 1];
      SelectCongruent(df[1..], p, q);
    }
  }

  /** A frame all of whose labels are kept is left exactly as it is. */
  lemma {:induction false} SelectKeepsAll<Cell>(df: Frame<Cell>, keep: string -> bool)
    requires forall i :: 0 <= i < |df| ==> keep(df[i].name)
    ensures Select(df, keep) == df
  {
    if df != [] {
      assert keep(df[0].name);
      assert forall i :: 0 <= i < |df[1..]| ==> df[1..][i] == df[i + 1];
      SelectKeepsAll(df[1..], keep);
      assert [df[0]] + df[1..] == df;
    }
  }

  /** A frame none of whose labels is kept loses every column. */
  lemma {:induction false} SelectKeepsNone<Cell>(df: Frame<Cell>, keep: string -> bool)
    requires forall i :: 0 <= i < |df| ==> !keep(df[i].name)
    ensures Select(df, keep) == []
  {
    if df != [] {
      assert !keep(df[0].name);
      assert forall i :: 0 <= i < |df[1..]| ==> df[1..][i] == df[i + 1];
      SelectKeepsNone(df[1..], keep);
    }
  }

  /** Selecting columns never breaks the one-cell-per-row shape. */
  lemma SelectRectangular<Cell>(df: Frame<Cell>, keep: string -> bool)
    requires Rectangular(df)
    ensures Rectangular(Select(df, keep))
  {
    var r := Select(df, keep);
    forall i, j | 0 <= i < |r| && 0 <= j < |r|
      ensures |r[i].cells| == |r[j].cells|
    {
      assert r[i] in multiset(df) && r[j] in multiset(df);
    }
  }
}
