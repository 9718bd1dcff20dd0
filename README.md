# Aidan stock dashboard: filters and counts

This project models the data logic of the Aidan catalogue page (`app.py`), a
Streamlit page over a perfume stock spreadsheet. One render pass works like this:

- It loads the product table.
- For each of the four sidebar multiselects (fragrance family, type, price,
  product name), it offers the sorted distinct values of that column. Every
  option starts out chosen.
- It keeps the rows whose four values are all chosen. These rows form the
  detail table.
- It shows three metric cards, which hold constants.
- It draws two count charts over the full table: products per fragrance
  family, and products per availability label ("Sim" when the stock is
  positive, "Não" otherwise).

The model is pure. Values and functions carry the data logic; lemmas state
what it guarantees:

- `ordering.dfy` holds Python's string order and the proof that it is a
  strict total order.
- `sequences.dfy` holds `unique()`, `sorted()` and their composition: the
  distinct values of a column in ascending order.
- `inventory.dfy` holds a row of the spreadsheet and its columns. Only the
  family column has blank cells.
- `filters.dfy` holds the option lists, the selection and the four-way
  `isin` mask.
- `counts.dfy` holds `value_counts()` and the availability label.
- `summary.dfy` holds the metric cards. This includes the empty-table
  branch as written and as evidently intended.
- `dashboard.dfy` holds one render pass, plus small concrete tables worked
  through it.

With every option chosen, one would expect the detail table to be the whole
table. It is not: line 20 drops blank families from the family options, and
line 38 then tests every row's family against those options, so a product
with a blank family is never shown. `Filters.DefaultFilterIsIdentityIff`
proves that the default view is the whole table exactly when no family cell
is blank.

The code has an empty-table warning for each chart (lines 86-87, 106-107 and
120-121), but on an empty table line 56 raises first (see Findings). There is
no warning for a filter that keeps no rows; the detail table is simply empty.

## Model

| member | source | states |
|---|---|---|
| Ordering.StringLessIsStrictTotalOrder | app.py:20 | The string comparison used by `sorted` is irreflexive, transitive and total. |
| Ordering.StringLessIsFirstDifference | app.py:20 | `StringLess`, the `<` that `sorted` applies to text, holds exactly when the first string is a proper prefix of the second, or the first position where they differ holds a smaller code point in the first string. |
| Ordering.DropCommonHead | app.py:20 | Two strings with the same first character have the same proper-prefix relation and first difference after that character is dropped. |
| Ordering.IntLessIsStrictTotalOrder | app.py:28 | The price comparison used by `sorted` is a strict total order. |
| Sequences.Unique | app.py:24 | `unique()` returns no value twice, and a value appears in its result exactly when it occurs in the column. |
| Sequences.UniqueKeepsFirstAppearanceOrder | app.py:24 | `unique()` lists values in order of first appearance: of any two values it returns, the earlier one occurs in the column before the later one first does. |
| Sequences.SortAscending | app.py:24 | `sorted` returns its input reordered (the same multiset) in ascending order. |
| Sequences.Domain | app.py:24 | `sorted(col.unique())` is strictly ascending, has no repeats, and holds exactly the values of the column. |
| Sequences.DomainIsCanonical | app.py:20-33 | Any strictly ascending list that holds exactly a column's values equals that column's option list, so the options are uniquely determined. |
| Inventory.PresentCategories | app.py:20 | `dropna()` on the family column keeps a family exactly when some row has it. It is as long as the table exactly when no family cell is blank. |
| Inventory.PresentCategoriesKeepsEveryCell | app.py:20 | `dropna()` keeps every non-blank family cell exactly once: each family occurs in the result as often as in the column. |
| Inventory.PresentCategoriesDropsBlanks | app.py:20 | `dropna()` drops exactly the blank cells: its length plus the number of blank family cells is the table size. |
| Filters.CategoryOptions | app.py:20 | The family options are strictly ascending and distinct, and hold exactly the non-blank families of the table. |
| Filters.KindOptions | app.py:24 | The type options are strictly ascending and distinct, and hold exactly the types of the table. |
| Filters.PriceOptions | app.py:28 | The price options are strictly ascending and distinct, and hold exactly the prices of the table. |
| Filters.NameOptions | app.py:32 | The product options are strictly ascending and distinct, and hold exactly the names of the table. |
| Filters.DefaultSelection | app.py:21-33 | With every multiselect at its default, every type, price and name of the table and every non-blank family is chosen, and nothing else is. |
| Filters.Matches | app.py:38-41 | The four `isin` tests joined by `&`: a row with a blank family never passes, and a multiselect with nothing chosen lets no row through. |
| Filters.Filter | app.py:37-42 | A row is in the detail table exactly when it is in the table and passes all four `isin` tests; the detail table is never longer than the table. |
| Filters.KeptPositionsInRange | app.py:37-42 | There is one kept position per kept row, and each is a position of the table. |
| Filters.KeptRowsAtKeptPositions | app.py:37-42 | The k-th kept row is the table's row at the k-th kept position. |
| Filters.KeptPositionsAscend | app.py:37-42 | The kept positions strictly ascend, so the rows keep their original order. |
| Filters.KeptPositionsMatch | app.py:37-42 | A position is kept exactly when its row passes the mask. |
| Filters.FilterKeepsMatchingRowsInOrder | app.py:37-42 | The detail table is the subsequence of the table's matching rows, in table order. |
| Filters.FilterAppend | app.py:37-42 | Adding one row to the table adds it to the detail table exactly when it passes the mask. |
| Filters.FilterIdempotent | app.py:37-42 | Applying the same mask to the detail table changes nothing. |
| Filters.FilterIsIdentityIff | app.py:37-42 | The mask keeps the whole table exactly when every row passes it. |
| Filters.DefaultSelectionMatchesIff | app.py:20-42 | With every option chosen, a row of the table passes exactly when its family is not blank. |
| Filters.OneFamilyMatchesIff | app.py:20-42 | With a single family chosen and the other filters at their defaults, a row of the table passes exactly when it has that family. |
| Filters.DefaultFilterIsIdentityIff | app.py:20-42 | With every option chosen, the detail table is the whole table exactly when no family cell is blank. |
| Filters.CoveringFilterCountsPresentCategories | app.py:37-42 | A selection that covers every type, price, name and family of the table keeps as many rows as there are non-blank family cells. |
| Filters.DefaultFilterLength | app.py:20-42 | The default detail table has one row per non-blank family cell. |
| Filters.EmptyTable | app.py:20-42 | An empty table gives four empty option lists and an empty detail table, whatever is selected, with no error. |
| Counts.Tally | app.py:73 | `value_counts()` has one row per distinct value of the column and no value twice. Each count is the number of occurrences of its value and is at least 1. |
| Counts.CountedTotal | app.py:93 | Counting each value of a multiset once, over a repeat-free list that covers it, adds up to the multiset's size. |
| Counts.TallyTotal | app.py:73 | The counts of `value_counts()` add up to the length of the column it counts. |
| Counts.AvailabilityLabel | app.py:92 | The label is "Sim" exactly when the stock is positive, and "Não" exactly when it is not. |
| Counts.AvailabilityColumn | app.py:92 | The derived column has one label per product, and each label is the one for that product's stock. |
| Counts.AvailabilityCounts | app.py:93 | The availability counts have no label twice. Each count is the number of products carrying its label and is at least 1. |
| Counts.CategoryCounts | app.py:73 | The family counts have one row per distinct non-blank family and no family twice. Each count is the number of family cells holding that family and is at least 1. |
| Counts.TallyOfTwo | app.py:73 | Counting a two-value column gives one row of count 2, or two rows of count 1 in order of appearance. |
| Counts.AvailabilityKeysAreLabelsInUse | app.py:92-93 | A label heads a row of the availability counts exactly when some product carries it. |
| Counts.AvailabilityCountsShape | app.py:92-93 | The availability counts have distinct labels, only "Sim" and "Não", and so at most two rows. "Sim" appears exactly when some stock is positive, "Não" exactly when some stock is not positive. The counts add up to the number of products. |
| Counts.CategoryCountsShape | app.py:73 | The family counts add up to the number of non-blank family cells, which is the table size minus the blank cells, and equals the table size exactly when no family is blank. |
| Summary.Unpack3 | app.py:56 | Tuple unpacking into three names succeeds exactly on three values and keeps their order. Otherwise it fails, saying whether there were too many values or too few, and how many it got when too few. |
| Summary.MetricsAsWritten | app.py:51-56 | As written, the metrics branch fails exactly on an empty table, with "too many values to unpack (expected 3)". Otherwise it gives 32, 23 and "Pix". |
| Summary.MetricsFor | app.py:51-56 | The corrected metrics agree with the code on every non-empty table and are (0, 0, "") on an empty one. |
| Summary.MetricsIgnoreContents | app.py:51-54 | Any two non-empty tables show the same metric cards, including 32 products for a table of any size. |
| Dashboard.Render | app.py:51-125 | In one corrected pass, the metrics are the corrected metrics and the detail table is the filtered table. Each chart is drawn exactly when the table is not empty, and then shows the family counts and the availability counts of the full table. |
| Dashboard.RenderAsWritten | app.py:51-58 | A pass as written fails exactly on the empty table. On any other table it equals the corrected pass. |
| Dashboard.ChartsIgnoreSelection | app.py:71-107 | The metrics and both charts come from the full table, so the selection changes only the detail table. |
| Dashboard.EmptyTableView | app.py:20-107 | The corrected pass over an empty table shows zero metrics, both chart warnings, no options and an empty detail table. |
| Dashboard.FilterOfTwo | app.py:37-42 | The mask over a two-row table keeps each row exactly when it matches, in order. |
| Dashboard.TwoProductDefaultView | app.py:20-42 | Products A (Floral) and B (Woody) both appear in the default detail table. |
| Dashboard.TwoProductCategoryCounts | app.py:73 | Products A and B give the family counts Floral 1, Woody 1. |
| Dashboard.TwoProductAvailabilityCounts | app.py:92-93 | Product A (stock 2) and product B (stock 0) give the availability counts Sim 1, Não 1. |
| Dashboard.NarrowedScenario | app.py:37-42 | Choosing only the Floral family leaves product A alone in the detail table. |
| Dashboard.BlankFamilyDefaultView | app.py:20-42 | A product with a blank family is left out of the default detail table. |
| Dashboard.BlankFamilyCategoryCounts | app.py:73 | A product with a blank family is not counted in the family chart. |
| Dashboard.BlankFamilyAvailabilityCounts | app.py:92-93 | A product with a blank family is still counted in the availability chart. |

## Left out

- Loading the spreadsheet over the network (line 14) is not modelled. The model starts from the loaded table; a fetch or parse failure is not modelled.
- The Streamlit calls are not modelled: page configuration, titles, the sidebar widgets, the metric cards, column layout and `st.dataframe`. The user's selection is a parameter of each pass.
- The Plotly figures are not modelled; the model stops at the tables they are drawn from.
- The price histogram (lines 110-121) is not modelled, because its ten bins depend on floating-point bin edges.
- Prices are integers, because the page only compares prices for equality and order. Floating-point prices, including NaN, are not modelled.
- Only the family column may be blank. Blank cells in the type, name, price or stock columns, and pandas' NaN handling in `sorted`, `isin` and `x > 0`, are not modelled.
- `astype(str)` on line 20 is not modelled, because families are text in the model. A non-text family would compare unequal to its own string option in the `isin` of line 38.
- Counts.Tally: lists values in order of first appearance, where pandas sorts them by descending count. The model fixes that first-appearance order (`Sequences.UniqueKeepsFirstAppearanceOrder`), and the lists in the example lemmas (`Counts.TallyOfTwo` and the `Dashboard` scenarios) follow it.
- Column 3 of the metrics row (`col3`, line 58) is created but never used, so it is not modelled.
- The "Disponível" column is added to the full table at line 92, after the detail table has been taken at line 37. The model's detail table therefore never carries that column.

## Findings

| source | as written | input that shows it | evidently intended | confidence | as-written member | corrected member |
|---|---|---|---|---|---|---|
| app.py:56 | `total_produtos, total_disponiveis, forma_pagamento = 0, 0, 0, ""` unpacks four values into three names | an empty table (no rows): Python raises "too many values to unpack (expected 3)" and the page stops before any chart | the empty state (0, 0, "") for the three metrics, with both chart warnings shown | high, not executed | Summary.MetricsAsWritten | Summary.MetricsFor |
