/** `find_and_drop_cols`: drop every column whose label marks a Norwegian or
    Swedish translation (`.no`, `.se`) or a Wikidata link (`sameAs`). */
module Prune {
  import opened Strings
  import opened Frames

  /** The label test of the list comprehension: the last three characters are
      `.no` or `.se`, or the last six are `sameAs` (no leading dot, and the
      comparison is case-sensitive). */
  predicate IsDropped(name: string) {
    TailSlice(name, 3) == ".no" || TailSlice(name, 3) == ".se" || TailSlice(name, 6) == "sameAs"
  }

  /** The labels that survive. */
  predicate Kept(name: string) {
    !IsDropped(name)
  }

  /** The slice comparisons are exactly three `endswith` tests. */
  lemma IsDroppedIsSuffixTest(name: string)
    ensures IsDropped(name) <==> EndsWith(name, ".no") || EndsWith(name, ".se") || EndsWith(name, "sameAs")
  {
    TailSliceIsEndsWith(name, ".no");
    TailSliceIsEndsWith(name, ".se");
    TailSliceIsEndsWith(name, "sameAs");
  }

  /** The link test is on the six characters `sameAs`, not on `.sameAs`: a
      label that is exactly `sameAs`, or ends in it without a dot, is dropped. */
  lemma SameAsTestHasNoDot()
    ensures IsDropped("sameAs")
    ensures IsDropped("xsameAs") && !EndsWith("xsameAs", ".sameAs")
    ensures IsDropped("org.sameAs")
  {
    assert TailSlice("sameAs", 6) == "sameAs";
    assert TailSlice("xsameAs", 6) == "sameAs";
    assert TailSlice("org.sameAs", 6) == "sameAs";
    assert "xsameAs"[0] != ".sameAs"[0];
  }

  /** The comparison is case-sensitive: a label ending in `SameAs` is kept. */
  lemma SameAsTestIsCaseSensitive()
    ensures Kept("someSameAs")
  {
    assert TailSlice("someSameAs", 6) == "SameAs";
  }

  /** A label too short for a suffix is never matched by that suffix: the
      slice is then the whole label, which is shorter than the suffix. */
  lemma ShortLabelsSurvive(name: string)
    ensures |name| < 6 ==> TailSlice(name, 6) != "sameAs"
    ensures |name| < 3 ==> Kept(name)
  {}

  /** `cols_to_drop`: the matching labels, in column order, one entry per
      matching column (`ColsToDropInOrder`). */
  function ColsToDrop<Cell>(df: Frame<Cell>): (labels: seq<string>)
    ensures |labels| <= |df|
    ensures forall l :: l in labels ==> l in Names(df) && IsDropped(l)
    ensures forall i :: 0 <= i < |df| && IsDropped(df[i].name) ==> df[i].name in labels
  {
    if df == [] then []
    else
      NamesCons(df);
      (if IsDropped(df[0].name) then [df[0].name] else []) + ColsToDrop(df[1..])
  }

  /** One step of the comprehension: the first label if it matches, then
      the labels collected from the rest. */
  lemma ColsToDropCons<Cell>(df: Frame<Cell>)
    requires df != []
    ensures ColsToDrop(df) == (if IsDropped(df[0].name) then [df[0].name] else []) + ColsToDrop(df[1..])
  {}

  /** The collected list is the labels of the matching columns, in column
      order, with one entry per matching column (a label carried by two
      matching columns appears twice). */
  lemma {:induction false} ColsToDropInOrder<Cell>(df: Frame<Cell>)
    ensures ColsToDrop(df) == Names(Select(df, IsDropped))
  {
    if df != [] {
      ColsToDropInOrder(df[1..]);
      ColsToDropCons(df);
      SelectCons(df, IsDropped);
      var head := if IsDropped(df[0].name) then [df[0]] else [];
      assert Names(head) == if IsDropped(df[0].name) then [df[0].name] else [];
      NamesAppend(head, Select(df[1..], IsDropped));
    }
  }

  /** The labels of `labels` that name no column, in the order given. */
  function MissingLabels(labels: seq<string>, names: seq<string>): (m: seq<string>)
    ensures forall l :: l in m <==> l in labels && l !in names
  {
    if labels == [] then []
    else
      assert labels == [labels[0]] + labels[1..];
      (if labels[0] in names then [] else [labels[0]]) + MissingLabels(labels[1..], names)
  }

  /** The outcome of pandas' `drop(labels, axis=1)`. */
  datatype DropOutcome<Cell> = Dropped(frame: Frame<Cell>) | KeyError(missing: seq<string>)

  /** pandas' `drop(labels, axis=1)` with its default `errors='raise'`: every
      column carrying one of the labels goes, duplicates included; a label
      that names no column raises `KeyError` and the frame is left alone. */
  function DropLabels<Cell>(df: Frame<Cell>, labels: seq<string>): (r: DropOutcome<Cell>)
    ensures r.Dropped? <==> forall l :: l in labels ==> l in Names(df)
    ensures r.Dropped? ==> multiset(r.frame) <= multiset(df)
    ensures r.Dropped? ==> forall i :: 0 <= i < |r.frame| ==> r.frame[i].name !in labels
    ensures r.Dropped? ==> forall i :: 0 <= i < |df| && df[i].name !in labels ==> df[i] in r.frame
    ensures r.KeyError? ==> |r.missing| > 0 && forall l :: l in r.missing ==> l in labels && l !in Names(df)
  {
    var missing := MissingLabels(labels, Names(df));
    if missing == [] then Dropped(Select(df, (n: string) => n !in labels))
    else
      assert missing[0] in missing;
      KeyError(missing)
  }

  /** Dropping by the collected labels never raises, and removes exactly
      the columns whose label fails the test: the result is the in-order
      filter by the test. */
  lemma CollectedDropIsSelect<Cell>(df: Frame<Cell>)
    ensures DropLabels(df, ColsToDrop(df)) == Dropped(Select(df, Kept))
  {
    var labels := ColsToDrop(df);
    forall i | 0 <= i < |df|
      ensures (df[i].name !in labels) == Kept(df[i].name)
    {
      assert Names(df)[i] == df[i].name;
    }
    SelectCongruent(df, (n: string) => n !in labels, Kept);
  }

  /** `find_and_drop_cols`: the labels to drop are collected from the frame
      itself, so the `drop` never raises. What is left is every column whose
      label fails the test, with its cells, and nothing else. */
  function FindAndDropCols<Cell>(df: Frame<Cell>): (r: Frame<Cell>)
    ensures forall i :: 0 <= i < |r| ==> Kept(r[i].name)
    ensures multiset(r) <= multiset(df)
    ensures forall i :: 0 <= i < |df| && Kept(df[i].name) ==> df[i] in r
  {
    CollectedDropIsSelect(df);
    DropLabels(df, ColsToDrop(df)).frame
  }

  /** The helper is the filter by the test: the surviving columns are
      exactly the unmatched ones, in their original order. */
  lemma FindAndDropColsIsSelect<Cell>(df: Frame<Cell>)
    ensures FindAndDropCols(df) == Select(df, Kept)
  {
    CollectedDropIsSelect(df);
  }

  /** Order preservation: dropping from two frames side by side is dropping
      from each. */
  lemma FindAndDropColsAppend<Cell>(a: Frame<Cell>, b: Frame<Cell>)
    ensures FindAndDropCols(a + b) == FindAndDropCols(a) + FindAndDropCols(b)
  {
    FindAndDropColsIsSelect(a + b);
    FindAndDropColsIsSelect(a);
    FindAndDropColsIsSelect(b);
    SelectAppend(a, b, Kept);
  }

  /** A single column is dropped exactly when its label matches, and is
      otherwise kept unchanged. Together with `FindAndDropColsAppend` this
      determines the result on every frame. */
  lemma FindAndDropColsOne<Cell>(c: Column<Cell>)
    ensures FindAndDropCols([c]) == if IsDropped(c.name) then [] else [c]
  {
    FindAndDropColsIsSelect([c]);
    assert [c][1..] == [];
  }

  /** The result on a frame is the verdict on its first column followed by
      the result on the rest. */
  lemma FindAndDropColsCons<Cell>(c: Column<Cell>, rest: Frame<Cell>)
    ensures FindAndDropCols([c] + rest) == (if IsDropped(c.name) then [] else [c]) + FindAndDropCols(rest)
  {
    FindAndDropColsAppend([c], rest);
    FindAndDropColsOne(c);
  }

  /** Exactly one label is collected per dropped column, so the surviving
      and the collected counts add up to the column count. */
  lemma {:induction false} FindAndDropColsCount<Cell>(df: Frame<Cell>)
    ensures |FindAndDropCols(df)| + |ColsToDrop(df)| == |df|
  {
    if df != [] {
      FindAndDropColsCount(df[1..]);
      ColsToDropCons(df);
      FindAndDropColsAppend([df[0]], df[1..]);
      FindAndDropColsOne(df[0]);
      assert [df[0]] + df[1..] == df;
    }
  }

  /** A frame is left unchanged exactly when none of its labels matches; a
      frame with no matching column is a no-op, never an error. */
  lemma FindAndDropColsFixedPoint<Cell>(df: Frame<Cell>)
    ensures FindAndDropCols(df) == df <==> forall i :: 0 <= i < |df| ==> Kept(df[i].name)
  {
    FindAndDropColsIsSelect(df);
    if forall i :: 0 <= i < |df| ==> Kept(df[i].name) {
      SelectKeepsAll(df, Kept);
    }
  }

  /** A frame all of whose labels match loses every column. */
  lemma FindAndDropColsAllMatched<Cell>(df: Frame<Cell>)
    requires forall i :: 0 <= i < |df| ==> IsDropped(df[i].name)
    ensures FindAndDropCols(df) == []
  {
    FindAndDropColsIsSelect(df);
    SelectKeepsNone(df, Kept);
  }

  /** Matched columns between unmatched ones vanish and the unmatched ones
      close up around them. */
  lemma FindAndDropColsSplice<Cell>(a: Frame<Cell>, m: Frame<Cell>, b: Frame<Cell>)
    requires forall i :: 0 <= i < |a| ==> Kept(a[i].name)
    requires forall i :: 0 <= i < |m| ==> IsDropped(m[i].name)
    requires forall i :: 0 <= i < |b| ==> Kept(b[i].name)
    ensures FindAndDropCols(a + m + b) == a + b
  {
    FindAndDropColsFixedPoint(a);
    FindAndDropColsFixedPoint(b);
    FindAndDropColsAllMatched(m);
    FindAndDropColsAppend(a, m);
    assert a + [] == a;
    FindAndDropColsAppend(a + m, b);
  }

  /** A second application is a no-op: no survivor matches the test. */
  lemma FindAndDropColsIdempotent<Cell>(df: Frame<Cell>)
    ensures FindAndDropCols(FindAndDropCols(df)) == FindAndDropCols(df)
  {
    FindAndDropColsFixedPoint(FindAndDropCols(df));
  }

  /** Dropping columns keeps one cell per row in every survivor. */
  lemma FindAndDropColsRectangular<Cell>(df: Frame<Cell>)
    requires Rectangular(df)
    ensures Rectangular(FindAndDropCols(df))
  {
    FindAndDropColsIsSelect(df);
    SelectRectangular(df, Kept);
  }
}
