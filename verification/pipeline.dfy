/** What the two helpers give when applied one after the other, as a caller
    normalises a freshly flattened frame of laureate data. */
module Pipeline {
  import opened Strings
  import opened Frames
  import opened Prune
  import opened Rename

  /** The verdicts of the drop test on the example's labels. */
  lemma ExampleLabels()
    ensures Kept("name.en") && Kept("id")
    ensures IsDropped("name.no") && IsDropped("name.se") && IsDropped("org.sameAs")
  {
    assert TailSlice("name.en", 3) == ".en" && TailSlice("name.en", 6) == "ame.en";
    assert TailSlice("id", 3) == "id" && TailSlice("id", 6) == "id";
    assert TailSlice("name.no", 3) == ".no";
    assert TailSlice("name.se", 3) == ".se";
    assert TailSlice("org.sameAs", 6) == "sameAs";
  }

  /** One kept column, three matched ones, one kept column: the two kept
      columns survive, side by side. */
  lemma PruneKeepsEnds<Cell>(first: Frame<Cell>, middle: Frame<Cell>, last: Frame<Cell>)
    requires |first| == 1 && Kept(first[0].name)
    requires |middle| == 3 && IsDropped(middle[0].name) && IsDropped(middle[1].name) && IsDropped(middle[2].name)
    requires |last| == 1 && Kept(last[0].name)
    ensures FindAndDropCols(first + middle + last) == first + last
  {
    FindAndDropColsSplice(first, middle, last);
  }

  /** Pruning a frame labelled `name.en`, `name.no`, `name.se`, `org.sameAs`,
      `id` (here split as `en + locale + id`) keeps the `name.en` and `id`
      columns and drops the Norwegian, Swedish and link columns, with cells
      and order unchanged. */
  lemma PruneExample<Cell>(en: Frame<Cell>, locale: Frame<Cell>, id: Frame<Cell>)
    requires |en| == 1 && en[0].name == "name.en"
    requires |locale| == 3 && locale[0].name == "name.no" && locale[1].name == "name.se"
    requires locale[2].name == "org.sameAs"
    requires |id| == 1 && id[0].name == "id"
    ensures FindAndDropCols(en + locale + id) == en + id
  {
    ExampleLabels();
    PruneKeepsEnds(en, locale, id);
  }

  /** Stripping the survivors then renames `name.en` to `name` and leaves
      `id` alone; the cells do not change. */
  lemma StripExample<Cell>(c0: Column<Cell>, c4: Column<Cell>)
    requires c0.name == "name.en" && c4.name == "id"
    ensures StripEn([c0, c4]) == [Column("name", c0.cells), c4]
  {
    var r := StripEn([c0, c4]);
    FrontOfSuffix(r[0].name, "name.en", ".en");
    assert r[0].name == "name";
    assert !EndsWith("id", ".en");
  }

  /** Pruning and then stripping the five-column frame leaves `name`, with
      the cells of `name.en`, followed by the `id` column unchanged. */
  lemma PruneThenStripExample<Cell>(en: Frame<Cell>, locale: Frame<Cell>, id: Frame<Cell>)
    requires |en| == 1 && en[0].name == "name.en"
    requires |locale| == 3 && locale[0].name == "name.no" && locale[1].name == "name.se"
    requires locale[2].name == "org.sameAs"
    requires |id| == 1 && id[0].name == "id"
    ensures StripEn(FindAndDropCols(en + locale + id)) == [Column("name", en[0].cells), id[0]]
  {
    PruneExample(en, locale, id);
    assert en + id == [en[0], id[0]];
    StripExample(en[0], id[0]);
  }
}
