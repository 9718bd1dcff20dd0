/**
 One render pass of the page, as a pure function of the loaded table and the
 current sidebar selection: the metric cards, the two count charts (each
 replaced by a warning when the table is empty) and the detail table.
 */
module Dashboard {
  import opened Inventory
  import opened Filters
  import opened Counts
  import opened Summary

  /** What one pass hands to the page: `None` for a chart stands for its
      "Nenhum dado" warning. */
  datatype View = View(
    metrics: Metrics,
    categoryChart: Option<Frequencies<string>>,
    availabilityChart: Option<Frequencies<string>>,
    detail: Table)

  /** A render pass with the empty-table metrics as evidently intended. The
      charts are counted over the full table; only the detail table depends
      on the selection. */
  function Render(t: Table, sel: Selection): (v: View)
    ensures v.metrics == MetricsFor(t)
    ensures v.detail == Filter(t, sel)
    ensures v.categoryChart.Some? <==> |t| > 0
    ensures v.availabilityChart.Some? <==> |t| > 0
    ensures |t| > 0 ==> v.categoryChart == Some(CategoryCounts(t)) && v.availabilityChart == Some(AvailabilityCounts(t))
  {
    View(
      MetricsFor(t),
      if |t| > 0 then Some(CategoryCounts(t)) else None,
      if |t| > 0 then Some(AvailabilityCounts(t)) else None,
      Filter(t, sel))
  }

  /** A render pass as written: the metrics branch runs before any chart,
      so its failure ends the pass. It fails exactly on the empty table;
      otherwise it produces the same view as the corrected pass. */
  function RenderAsWritten(t: Table, sel: Selection): (r: Result<View>)
    ensures r.Err? <==> |t| == 0
    ensures |t| > 0 ==> r == Ok(Render(t, sel))
  {
    match MetricsAsWritten(t)
    case Err(e) => Err(e)
    case Ok(m) => Ok(Render(t, sel).(metrics := m))
  }

  /** The metrics and both charts come from the full table, so changing the
      selection changes only the detail table. */
  lemma ChartsIgnoreSelection(t: Table, sel1: Selection, sel2: Selection)
    ensures Render(t, sel1).(detail := []) == Render(t, sel2).(detail := [])
  {
  }

  /** An empty table renders the zero metrics, both warnings and an empty
      detail table, and offers no filter options. */
  lemma EmptyTableView(sel: Selection)
    ensures Render([], sel) == View(Metrics(Int(0), Int(0), Text("")), None, None, [])
    ensures DefaultSelection([]) == Selection([], [], [], [])
  {
    EmptyTable(sel);
  }

  const FLORAL: Product := Product("A", Some("Floral"), "Perfume", 100, 2)
  const WOODY: Product := Product("B", Some("Woody"), "Perfume", 50, 0)
  const UNFILED: Product := Product("C", None, "Perfume", 80, 5)

  /** The mask over a two-row table. */
  lemma FilterOfTwo(a: Product, b: Product, sel: Selection)
    ensures Filter([a, b], sel) == (if Matches(sel, a) then [a] else []) + (if Matches(sel, b) then [b] else [])
  {
    assert [a, b][..1] == [a];
    assert [a][..0] == [];
  }

  /** Two products with different families: the default view shows both. */
  lemma TwoProductDefaultView(t: Table)
    requires t == [FLORAL, WOODY]
    ensures Filter(t, DefaultSelection(t)) == t
  {
    DefaultFilterIsIdentityIff(t);
  }

  /** Two products with different families: each family is counted once. */
  lemma TwoProductCategoryCounts(t: Table)
    requires t == [FLORAL, WOODY]
    ensures CategoryCounts(t) == [("Floral", 1), ("Woody", 1)]
  {
    assert t[..1] == [FLORAL];
    assert [FLORAL][..0] == [];
    assert PresentCategories(t) == ["Floral", "Woody"];
    TallyOfTwo("Floral", "Woody");
  }

  /** One product in stock and one not: each label is counted once. */
  lemma TwoProductAvailabilityCounts(t: Table)
    requires t == [FLORAL, WOODY]
    ensures AvailabilityCounts(t) == [(AVAILABLE, 1), (UNAVAILABLE, 1)]
  {
    assert AvailabilityColumn(t) == [AVAILABLE, UNAVAILABLE];
    TallyOfTwo(AVAILABLE, UNAVAILABLE);
  }

  /** Choosing only the "Floral" family leaves product A in the detail table
      (the charts do not depend on the selection, see `ChartsIgnoreSelection`). */
  lemma NarrowedScenario(t: Table, narrowed: Selection)
    requires t == [FLORAL, WOODY]
    requires narrowed == DefaultSelection(t).(categories := ["Floral"])
    ensures Filter(t, narrowed) == [FLORAL]
  {
    OneFamilyMatchesIff(t, "Floral", FLORAL);
    OneFamilyMatchesIff(t, "Floral", WOODY);
    FilterOfTwo(FLORAL, WOODY, narrowed);
  }

  /** A product with a blank family is left out of the default detail table. */
  lemma BlankFamilyDefaultView(t: Table)
    requires t == [FLORAL, UNFILED]
    ensures Filter(t, DefaultSelection(t)) == [FLORAL]
  {
    var sel := DefaultSelection(t);
    assert Matches(sel, FLORAL) by {
      DefaultSelectionMatchesIff(t, FLORAL);
    }
    assert !Matches(sel, UNFILED);
    FilterOfTwo(FLORAL, UNFILED, sel);
  }

  /** A product with a blank family is not counted in the family chart. */
  lemma BlankFamilyCategoryCounts(t: Table)
    requires t == [FLORAL, UNFILED]
    ensures CategoryCounts(t) == [("Floral", 1)]
  {
    assert t[..1] == [FLORAL];
    assert [FLORAL][..0] == [];
    assert PresentCategories(t) == ["Floral"];
    assert ["Floral"][..0] == [];
  }

  /** A product with a blank family is still counted in the availability chart. */
  lemma BlankFamilyAvailabilityCounts(t: Table)
    requires t == [FLORAL, UNFILED]
    ensures AvailabilityCounts(t) == [(AVAILABLE, 2)]
  {
    assert AvailabilityColumn(t) == [AVAILABLE, AVAILABLE];
    TallyOfTwo(AVAILABLE, AVAILABLE);
  }
}
