/**
 The product table the dashboard loads once per session: one row per item of
 the spreadsheet, with the columns "Nome do item", "Família Olfativa",
 "Tipo", "Preço Unitário" and "Estoque".
 */
module Inventory {

  datatype Option<T> = None | Some(value: T)

  /** One spreadsheet row. The fragrance family (`category`) is the only
      column with blank cells; a price is an integer amount (for instance in
      cents), since the dashboard only compares prices for equality and order. */
  datatype Product = Product(
    name: string,
    category: Option<string>,
    kind: string,
    price: int,
    stock: int)

  type Table = seq<Product>

  /** One column of the table, `df[column]`, in row order. */
  function Column<T>(t: Table, field: Product -> T): (r: seq<T>)
    ensures |r| == |t|
    ensures forall i :: 0 <= i < |t| ==> r[i] == field(t[i])
  {
    seq(|t|, i requires 0 <= i < |t| => field(t[i]))
  }

  function Names(t: Table): seq<string> { Column(t, (p: Product) => p.name) }
  function Categories(t: Table): seq<Option<string>> { Column(t, (p: Product) => p.category) }
  function Kinds(t: Table): seq<string> { Column(t, (p: Product) => p.kind) }
  function Prices(t: Table): seq<int> { Column(t, (p: Product) => p.price) }

  /** Every value of a row appears in the matching column. */
  lemma RowInColumns(t: Table, p: Product)
    requires p in t
    ensures p.name in Names(t) && p.category in Categories(t)
    ensures p.kind in Kinds(t) && p.price in Prices(t)
  {
    var i :| 0 <= i < |t| && t[i] == p;
    assert Names(t)[i] == p.name && Categories(t)[i] == p.category;
    assert Kinds(t)[i] == p.kind && Prices(t)[i] == p.price;
  }

  /** Every value of every row appears in the matching column. */
  lemma EveryRowInColumns(t: Table)
    ensures forall p :: p in t ==> p.name in Names(t) && p.category in Categories(t)
    ensures forall p :: p in t ==> p.kind in Kinds(t) && p.price in Prices(t)
  {
    forall p | p in t ensures p.name in Names(t) && p.category in Categories(t) && p.kind in Kinds(t) && p.price in Prices(t) {
      RowInColumns(t, p);
    }
  }

  /** `df['Família Olfativa'].dropna()`: the family of every row that has one, in row order. */
  function PresentCategories(t: Table): (r: seq<string>)
    ensures forall c :: c in r <==> Some(c) in Categories(t)
    ensures |r| <= |t|
    ensures |r| == |t| <==> forall p :: p in t ==> p.category.Some?
  {
    if t == [] then []
    else
      var prefix, last := t[..|t| - 1], t[|t| - 1];
      assert t == prefix + [last];
      assert Categories(t) == Categories(prefix) + [last.category];
      PresentCategories(prefix) + (if last.category.Some? then [last.category.value] else [])
  }

  /** The last row adds its family cell to the column, and its family, if
      any, to the non-blank families. */
  lemma LastRow(t: Table)
    requires t != []
    ensures var prefix, last := t[..|t| - 1], t[|t| - 1];
      && multiset(Categories(t)) == multiset(Categories(prefix)) + multiset{last.category}
      && PresentCategories(t) == PresentCategories(prefix) + (if last.category.Some? then [last.category.value] else [])
  {
    var prefix, last := t[..|t| - 1], t[|t| - 1];
    assert t == prefix + [last];
    assert Categories(t) == Categories(prefix) + [last.category];
  }

  /** `dropna()` keeps every non-blank family cell exactly once: each family
      occurs in the result as often as in the column. */
  lemma {:induction false} PresentCategoriesKeepsEveryCell(t: Table)
    ensures forall c :: multiset(PresentCategories(t))[c] == multiset(Categories(t))[Some(c)]
  {
    if t != [] {
      var prefix, last := t[..|t| - 1], t[|t| - 1];
      PresentCategoriesKeepsEveryCell(prefix);
      LastRow(t);
      var kept := if last.category.Some? then [last.category.value] else [];
      assert multiset(PresentCategories(t)) == multiset(PresentCategories(prefix)) + multiset(kept);
      forall c ensures multiset(kept)[c] == multiset{last.category}[Some(c)] {
      }
    }
  }

  /** `dropna()` drops exactly the blank family cells. */
  lemma {:induction false} PresentCategoriesDropsBlanks(t: Table)
    ensures |PresentCategories(t)| + multiset(Categories(t))[None] == |t|
  {
    if t != [] {
      PresentCategoriesDropsBlanks(t[..|t| - 1]);
      LastRow(t);
    }
  }
}
