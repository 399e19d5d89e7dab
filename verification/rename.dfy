/** `strip_en`: drop the English-translation suffix `.en` from column labels. */
module Rename {
  import opened Strings
  import opened Frames

  /** `cols_to_rename`: each label ending in `.en` maps to that label without
      its last three characters. Only labels of the frame are keys. */
  function RenameMap<Cell>(df: Frame<Cell>): (m: map<string, string>)
    ensures forall n :: n in m <==> n in Names(df) && EndsWith(n, ".en")
    ensures forall n :: n in m ==> m[n] + ".en" == n
  {
    if df == [] then map[]
    else
      var init := df[..|df| - 1];
      var col := df[|df| - 1].name;
      assert Names(df) == Names(init) + [col];
      var m := RenameMap(init);
      if EndsWith(col, ".en") then
        DropLastOfEndsWith(col, ".en");
        m[col := DropLast(col, 3)]
      else m
  }

  /** pandas' `rename(mapping, axis=1)`: every label is looked up once in the
      mapping (a new label is not looked up again); cells, column order and
      repeated labels are left as they are. The contract is this definition,
      column by column. */
  function RenameColumns<Cell>(df: Frame<Cell>, mapping: map<string, string>): (r: Frame<Cell>)
    ensures |r| == |df|
    ensures forall i :: 0 <= i < |df| ==> r[i].cells == df[i].cells
    ensures forall i :: 0 <= i < |df| && df[i].name in mapping ==> r[i].name == mapping[df[i].name]
    ensures forall i :: 0 <= i < |df| && df[i].name !in mapping ==> r[i].name == df[i].name
  {
    seq(|df|, i requires 0 <= i < |df| =>
      Column(if df[i].name in mapping then mapping[df[i].name] else df[i].name, df[i].cells))
  }

  /** A rename changes nothing exactly when every label of the frame that the
      mapping mentions is mapped to itself. */
  lemma RenameColumnsFixedPoint<Cell>(df: Frame<Cell>, mapping: map<string, string>)
    ensures RenameColumns(df, mapping) == df
        <==> forall i :: 0 <= i < |df| && df[i].name in mapping ==> mapping[df[i].name] == df[i].name
  {
    var r := RenameColumns(df, mapping);
    if forall i :: 0 <= i < |df| && df[i].name in mapping ==> mapping[df[i].name] == df[i].name {
      assert forall i :: 0 <= i < |df| ==> r[i] == df[i];
    } else {
      var i :| 0 <= i < |df| && df[i].name in mapping && mapping[df[i].name] != df[i].name;
      assert r[i].name != df[i].name;
    }
  }

  /** `strip_en`: the same columns in the same order with the same cells; a
      label ending in `.en` loses exactly that suffix, once, and every other
      label is unchanged. Labels that coincide after stripping stay separate
      columns. */
  function StripEn<Cell>(df: Frame<Cell>): (r: Frame<Cell>)
    ensures |r| == |df|
    ensures forall i :: 0 <= i < |df| ==> r[i].cells == df[i].cells
    ensures forall i :: 0 <= i < |df| && EndsWith(df[i].name, ".en") ==> r[i].name + ".en" == df[i].name
    ensures forall i :: 0 <= i < |df| && !EndsWith(df[i].name, ".en") ==> r[i].name == df[i].name
  {
    var m := RenameMap(df);
    var r := RenameColumns(df, m);
    assert forall i :: 0 <= i < |df| ==> Names(df)[i] == df[i].name;
    r
  }

  /** A renamed label is a prefix of the original, three characters shorter. */
  lemma StripEnShortens<Cell>(df: Frame<Cell>, i: nat)
    requires i < |df| && EndsWith(df[i].name, ".en")
    ensures StripEn(df)[i].name < df[i].name
    ensures |StripEn(df)[i].name| + 3 == |df[i].name|
  {
    var n := StripEn(df)[i].name;
    assert n + ".en" == df[i].name;
    assert df[i].name[..|n|] == n;
  }

  /** A frame is left unchanged exactly when none of its labels ends in `.en`. */
  lemma StripEnFixedPoint<Cell>(df: Frame<Cell>)
    ensures StripEn(df) == df <==> forall i :: 0 <= i < |df| ==> !EndsWith(df[i].name, ".en")
  {
    var r := StripEn(df);
    if forall i :: 0 <= i < |df| ==> !EndsWith(df[i].name, ".en") {
      assert forall i :: 0 <= i < |df| ==> r[i] == df[i];
    } else {
      var i :| 0 <= i < |df| && EndsWith(df[i].name, ".en");
      StripEnShortens(df, i);
    }
  }

  /** The part in front of a suffix is determined by the whole string. */
  lemma FrontOfSuffix(front: string, s: string, suffix: string)
    requires front + suffix == s
    ensures front == s[..|s| - |suffix|]
  {
    assert s[..|front|] == front;
  }

  /** One strip turns a label into one ending in `.en` exactly when the label
      ended in `.en.en`. */
  lemma StrippedEndsWithEn(n: string, stripped: string)
    requires EndsWith(n, ".en") ==> stripped + ".en" == n
    requires !EndsWith(n, ".en") ==> stripped == n
    ensures EndsWith(stripped, ".en") <==> EndsWith(n, ".en.en")
  {
    if EndsWith(n, ".en") {
      var k := |stripped|;
      assert n[..k] == stripped;
      if EndsWith(stripped, ".en") {
        assert n[|n| - 6..] == stripped[k - 3..] + ".en";
      }
      if EndsWith(n, ".en.en") {
        assert stripped[k - 3..] == n[|n| - 6..|n| - 3];
      }
    }
  }

  /** Stripping twice equals stripping once exactly when no label ends in
      `.en.en`: the mapping is computed once from the original labels, so
      each label loses one suffix per call. */
  lemma StripEnIdempotentIff<Cell>(df: Frame<Cell>)
    ensures StripEn(StripEn(df)) == StripEn(df) <==> forall i :: 0 <= i < |df| ==> !EndsWith(df[i].name, ".en.en")
  {
    var r := StripEn(df);
    forall i | 0 <= i < |df|
      ensures EndsWith(r[i].name, ".en") <==> EndsWith(df[i].name, ".en.en")
    {
      StrippedEndsWithEn(df[i].name, r[i].name);
    }
    StripEnFixedPoint(r);
  }

  /** `a.en.en` becomes `a.en` and then `a`: one call strips one suffix. */
  lemma StripEnNotIdempotent<Cell>(cells: seq<Cell>)
    ensures StripEn([Column("a.en.en", cells)]) == [Column("a.en", cells)]
    ensures StripEn(StripEn([Column("a.en.en", cells)])) == [Column("a", cells)]
  {
    var r := StripEn([Column("a.en.en", cells)]);
    FrontOfSuffix(r[0].name, "a.en.en", ".en");
    assert r[0].name == "a.en";
    var r2 := StripEn(r);
    FrontOfSuffix(r2[0].name, "a.en", ".en");
    assert r2[0].name == "a";
  }

  /** Labels `x.en` and `x` both end up as `x`; both columns stay, in order,
      with their own cells. */
  lemma StripEnKeepsCollisions<Cell>(a: seq<Cell>, b: seq<Cell>)
    ensures StripEn([Column("x.en", a), Column("x", b)]) == [Column("x", a), Column("x", b)]
  {
    var df := [Column("x.en", a), Column("x", b)];
    var r := StripEn(df);
    FrontOfSuffix(r[0].name, "x.en", ".en");
    assert r[0].name == "x";
    assert !EndsWith(df[1].name, ".en");
    assert r[1].name == "x";
  }

  /** Renaming keeps one cell per row in every column. */
  lemma StripEnRectangular<Cell>(df: Frame<Cell>)
    requires Rectangular(df)
    ensures Rectangular(StripEn(df))
  {}
}
