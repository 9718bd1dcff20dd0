/**
 The sidebar filters: the option list of each multiselect, the user's
 selection, and the boolean mask that picks the rows of the detail table.
 */
module Filters {
  import opened Ordering
  import opened Sequences
  import opened Inventory

  /** Options of the "Família Olfativa" filter: the distinct families, blanks dropped, ascending. */
  function CategoryOptions(t: Table): (r: seq<string>)
    ensures StrictlyAscending(r, StringLess) && Distinct(r)
    ensures forall c :: c in r <==> Some(c) in Categories(t)
  {
    StringLessIsStrictTotalOrder();
    Domain(PresentCategories(t), StringLess)
  }

  /** Options of the "Tipo" filter. */
  function KindOptions(t: Table): (r: seq<string>)
    ensures StrictlyAscending(r, StringLess) && Distinct(r)
    ensures forall k :: k in r <==> k in Kinds(t)
  {
    StringLessIsStrictTotalOrder();
    Domain(Kinds(t), StringLess)
  }

  /** Options of the "Valor" filter. */
  function PriceOptions(t: Table): (r: seq<int>)
    ensures StrictlyAscending(r, IntLess) && Distinct(r)
    ensures forall v :: v in r <==> v in Prices(t)
  {
    IntLessIsStrictTotalOrder();
    Domain(Prices(t), IntLess)
  }

  /** Options of the "Produto" filter. */
  function NameOptions(t: Table): (r: seq<string>)
    ensures StrictlyAscending(r, StringLess) && Distinct(r)
    ensures forall n :: n in r <==> n in Names(t)
  {
    StringLessIsStrictTotalOrder();
    Domain(Names(t), StringLess)
  }

  /** The values chosen in the four multiselects. A family selection holds
      only text, so it never contains the blank cell. */
  datatype Selection = Selection(
    categories: seq<string>,
    kinds: seq<string>,
    prices: seq<int>,
    names: seq<string>)

  /** Every multiselect starts with all of its options chosen: every value of
      the table is chosen (a blank family aside), and nothing else is. */
  function DefaultSelection(t: Table): (sel: Selection)
    ensures forall p :: p in t ==> p.kind in sel.kinds && p.price in sel.prices && p.name in sel.names
    ensures forall p :: p in t && p.category.Some? ==> p.category.value in sel.categories
    ensures forall c :: c in sel.categories <==> Some(c) in Categories(t)
    ensures forall k :: k in sel.kinds <==> k in Kinds(t)
    ensures forall v :: v in sel.prices <==> v in Prices(t)
    ensures forall n :: n in sel.names <==> n in Names(t)
  {
    EveryRowInColumns(t);
    Selection(CategoryOptions(t), KindOptions(t), PriceOptions(t), NameOptions(t))
  }

  /** The four `isin` tests joined by `&`. A blank family is in no selection,
      and a multiselect with nothing chosen lets no row through. */
  predicate Matches(sel: Selection, p: Product)
    ensures Matches(sel, p) ==> p.category.Some?
    ensures sel.categories == [] || sel.kinds == [] || sel.prices == [] || sel.names == [] ==> !Matches(sel, p)
  {
    && p.category.Some? && p.category.value in sel.categories
    && p.kind in sel.kinds
    && p.price in sel.prices
    && p.name in sel.names
  }

  /** `df[mask]`: the rows the mask keeps. */
  function Filter(t: Table, sel: Selection): (r: Table)
    ensures |r| <= |t|
    ensures forall p :: p in r <==> p in t && Matches(sel, p)
  {
    if t == [] then []
    else
      var prefix, last := t[..|t| - 1], t[|t| - 1];
      assert t == prefix + [last];
      Filter(prefix, sel) + (if Matches(sel, last) then [last] else [])
  }

  /** The positions of the kept rows, in increasing order. */
  ghost function KeptPositions(t: Table, sel: Selection): seq<nat> {
    if t == [] then []
    else
      var prefix := t[..|t| - 1];
      KeptPositions(prefix, sel) + (if Matches(sel, t[|t| - 1]) then [|t| - 1] else [])
  }

  /** One kept position per kept row, each a position of the table. */
  lemma {:induction false} KeptPositionsInRange(t: Table, sel: Selection)
    ensures |KeptPositions(t, sel)| == |Filter(t, sel)|
    ensures forall k :: 0 <= k < |KeptPositions(t, sel)| ==> KeptPositions(t, sel)[k] < |t|
  {
    if t != [] {
      KeptPositionsInRange(t[..|t| - 1], sel);
    }
  }

  /** The k-th kept row is the row at the k-th kept position. */
  lemma {:induction false} KeptRowsAtKeptPositions(t: Table, sel: Selection)
    ensures |KeptPositions(t, sel)| == |Filter(t, sel)|
    ensures forall k :: 0 <= k < |Filter(t, sel)| ==>
      KeptPositions(t, sel)[k] < |t| && Filter(t, sel)[k] == t[KeptPositions(t, sel)[k]]
  {
    KeptPositionsInRange(t, sel);
    if t != [] {
      var prefix := t[..|t| - 1];
      KeptRowsAtKeptPositions(prefix, sel);
      var r, pos := Filter(t, sel), KeptPositions(t, sel);
      var r', pos' := Filter(prefix, sel), KeptPositions(prefix, sel);
      forall k | 0 <= k < |r'| ensures r[k] == t[pos[k]] {
        assert r[k] == r'[k] && pos[k] == pos'[k];
        assert prefix[pos'[k]] == t[pos'[k]];
      }
    }
  }

  /** The kept positions ascend. */
  lemma {:induction false} KeptPositionsAscend(t: Table, sel: Selection)
    ensures forall k, l :: 0 <= k < l < |KeptPositions(t, sel)| ==> KeptPositions(t, sel)[k] < KeptPositions(t, sel)[l]
  {
    if t != [] {
      var prefix := t[..|t| - 1];
      KeptPositionsAscend(prefix, sel);
      KeptPositionsInRange(prefix, sel);
    }
  }

  /** A position is kept exactly when its row matches. */
  lemma {:induction false} KeptPositionsMatch(t: Table, sel: Selection)
    ensures forall i :: 0 <= i < |t| ==> (i in KeptPositions(t, sel) <==> Matches(sel, t[i]))
  {
    if t != [] {
      var prefix := t[..|t| - 1];
      KeptPositionsMatch(prefix, sel);
      KeptPositionsInRange(prefix, sel);
      var pos, pos' := KeptPositions(t, sel), KeptPositions(prefix, sel);
      forall i | 0 <= i < |t| ensures i in pos <==> Matches(sel, t[i]) {
        if i < |t| - 1 {
          assert prefix[i] == t[i];
          assert i in pos <==> i in pos';
        } else {
          assert i !in pos';
        }
      }
    }
  }

  /** The filtered table is the full table's matching rows in their original
      order: its k-th row is the row at the k-th matching position, the
      positions ascend, and a position is among them exactly when its row
      matches. */
  lemma FilterKeepsMatchingRowsInOrder(t: Table, sel: Selection)
    ensures var r, pos := Filter(t, sel), KeptPositions(t, sel);
      && |pos| == |r|
      && (forall k :: 0 <= k < |pos| ==> pos[k] < |t| && r[k] == t[pos[k]])
      && (forall k, l :: 0 <= k < l < |pos| ==> pos[k] < pos[l])
      && (forall i :: 0 <= i < |t| ==> (i in pos <==> Matches(sel, t[i])))
  {
    KeptRowsAtKeptPositions(t, sel);
    KeptPositionsAscend(t, sel);
    KeptPositionsMatch(t, sel);
  }

  /** Filtering one more row appends that row when it matches. */
  lemma FilterAppend(t: Table, p: Product, sel: Selection)
    ensures Filter(t + [p], sel) == Filter(t, sel) + (if Matches(sel, p) then [p] else [])
  {
    var t' := t + [p];
    assert t'[..|t'| - 1] == t;
  }

  /** Applying the same selection to the filtered table changes nothing. */
  lemma {:induction false} FilterIdempotent(t: Table, sel: Selection)
    ensures Filter(Filter(t, sel), sel) == Filter(t, sel)
  {
    if t != [] {
      var prefix, last := t[..|t| - 1], t[|t| - 1];
      assert t == prefix + [last];
      var kept := Filter(prefix, sel);
      FilterAppend(prefix, last, sel);
      FilterIdempotent(prefix, sel);
      if Matches(sel, last) {
        assert Filter(t, sel) == kept + [last];
        FilterAppend(kept, last, sel);
      } else {
        assert Filter(t, sel) == kept;
      }
    }
  }

  /** The mask keeps the whole table exactly when every row matches. */
  lemma {:induction false} FilterIsIdentityIff(t: Table, sel: Selection)
    ensures Filter(t, sel) == t <==> forall p :: p in t ==> Matches(sel, p)
  {
    if t != [] {
      var prefix, last := t[..|t| - 1], t[|t| - 1];
      assert t == prefix + [last];
      if forall p :: p in t ==> Matches(sel, p) {
        FilterIsIdentityIff(prefix, sel);
      }
    }
  }

  /** With every option chosen, a row of the table passes the mask exactly
      when it has a family: blank families drop out. */
  lemma DefaultSelectionMatchesIff(t: Table, p: Product)
    requires p in t
    ensures Matches(DefaultSelection(t), p) <==> p.category.Some?
  {
    RowInColumns(t, p);
  }

  /** Choosing a single family and leaving the other filters at their
      defaults keeps a row of the table exactly when it has that family. */
  lemma OneFamilyMatchesIff(t: Table, c: string, p: Product)
    requires p in t
    ensures Matches(DefaultSelection(t).(categories := [c]), p) <==> p.category == Some(c)
  {
    RowInColumns(t, p);
  }

  /** The default view shows the whole table exactly when no family cell is blank. */
  lemma DefaultFilterIsIdentityIff(t: Table)
    ensures Filter(t, DefaultSelection(t)) == t <==> forall p :: p in t ==> p.category.Some?
  {
    FilterIsIdentityIff(t, DefaultSelection(t));
    forall p | p in t ensures Matches(DefaultSelection(t), p) <==> p.category.Some? {
      DefaultSelectionMatchesIff(t, p);
    }
  }

  /** A selection that holds every kind, price and name of the table and every
      family it has keeps exactly the rows with a family, so as many rows as
      there are family cells. */
  lemma {:induction false} CoveringFilterCountsPresentCategories(t: Table, sel: Selection)
    requires forall p :: p in t ==> p.kind in sel.kinds && p.price in sel.prices && p.name in sel.names
    requires forall p :: p in t && p.category.Some? ==> p.category.value in sel.categories
    ensures |Filter(t, sel)| == |PresentCategories(t)|
  {
    if t != [] {
      var prefix, last := t[..|t| - 1], t[|t| - 1];
      assert t == prefix + [last];
      CoveringFilterCountsPresentCategories(prefix, sel);
    }
  }

  /** The default view has one row per non-blank family cell of the table. */
  lemma DefaultFilterLength(t: Table)
    ensures |Filter(t, DefaultSelection(t))| == |PresentCategories(t)|
  {
    CoveringFilterCountsPresentCategories(t, DefaultSelection(t));
  }

  /** An empty table has no options and an empty view, whatever is selected. */
  lemma EmptyTable(sel: Selection)
    ensures DefaultSelection([]) == Selection([], [], [], [])
    ensures Filter([], sel) == []
  {
  }
}
