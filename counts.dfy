/**
 The two counted views drawn from the full table: products per fragrance
 family (the bar chart) and products per availability label (the donut
 chart). Both are pandas `value_counts()` followed by `reset_index()`: a
 two-column table with one row per distinct value and its count.
 */
module Counts {
  import opened Sequences
  import opened Inventory

  /** The rows of a `value_counts().reset_index()` table: (value, count). */
  type Frequencies<K> = seq<(K, nat)>

  /** The value column. */
  function Keys<K>(f: Frequencies<K>): (ks: seq<K>)
    ensures |ks| == |f|
    ensures forall i :: 0 <= i < |f| ==> ks[i] == f[i].0
  {
    seq(|f|, i requires 0 <= i < |f| => f[i].0)
  }

  /** The sum of the count column. */
  function Total<K>(f: Frequencies<K>): nat {
    if f == [] then 0 else f[0].1 + Total(f[1..])
  }

  /** One row per value of `ks`, counting it in `m`. */
  function Counted<K>(ks: seq<K>, m: multiset<K>): (f: Frequencies<K>)
    ensures |f| == |ks|
    ensures forall i :: 0 <= i < |ks| ==> f[i] == (ks[i], m[ks[i]])
  {
    seq(|ks|, i requires 0 <= i < |ks| => (ks[i], m[ks[i]]))
  }

  /** pandas `value_counts()` over a column without blanks: one row per
      distinct value, in order of first appearance, with the number of times
      the value occurs. */
  function Tally<K(==,!new)>(xs: seq<K>): (f: Frequencies<K>)
    ensures Keys(f) == Unique(xs)
    ensures Distinct(Keys(f))
    ensures forall x :: x in Keys(f) <==> x in xs
    ensures forall i :: 0 <= i < |f| ==> f[i].1 == multiset(xs)[f[i].0] && f[i].1 >= 1
  {
    var ks := Unique(xs);
    var f := Counted(ks, multiset(xs));
    assert Keys(f) == ks;
    forall i | 0 <= i < |ks| ensures ks[i] in multiset(xs) {
      assert ks[i] in ks;
    }
    f
  }

  /** Counting every value of a multiset once, over a list of its values
      without repeats, accounts for all of its elements. */
  lemma {:induction false} CountedTotal<K>(ks: seq<K>, m: multiset<K>)
    requires Distinct(ks)
    requires forall x :: x in m ==> x in ks
    ensures Total(Counted(ks, m)) == |m|
  {
    if ks == [] {
      assert m == multiset{};
    } else {
      var k, rest := ks[0], ks[1..];
      var m' := m[k := 0];
      assert Counted(ks, m)[1..] == Counted(rest, m);
      assert Counted(rest, m) == Counted(rest, m') by {
        forall i | 0 <= i < |rest| ensures rest[i] != k {
          assert rest[i] == ks[i + 1];
        }
      }
      forall x | x in m' ensures x in rest {
        assert x in ks && x != k;
      }
      CountedTotal(rest, m');
    }
  }

  /** The counts of `value_counts()` add up to the length of the column. */
  lemma TallyTotal<K(!new)>(xs: seq<K>)
    ensures Total(Tally(xs)) == |xs|
  {
    CountedTotal(Unique(xs), multiset(xs));
  }

  /** The "Disponível" label of line 92: "Sim" when the stock is positive, "Não" otherwise. */
  const AVAILABLE: string := "Sim"
  const UNAVAILABLE: string := "Não"

  function AvailabilityLabel(stock: int): (text: string)
    ensures text == AVAILABLE <==> stock > 0
    ensures text == UNAVAILABLE <==> stock <= 0
  {
    if stock > 0 then AVAILABLE else UNAVAILABLE
  }

  /** The derived "Disponível" column, one label per row. */
  function AvailabilityColumn(t: Table): (labels: seq<string>)
    ensures |labels| == |t|
    ensures forall i :: 0 <= i < |t| ==> labels[i] == AvailabilityLabel(t[i].stock)
  {
    seq(|t|, i requires 0 <= i < |t| => AvailabilityLabel(t[i].stock))
  }

  /** `df["Disponível"].value_counts()`: one row per label in use, with the
      number of products that carry it. */
  function AvailabilityCounts(t: Table): (f: Frequencies<string>)
    ensures Distinct(Keys(f))
    ensures forall i :: 0 <= i < |f| ==> f[i].1 == multiset(AvailabilityColumn(t))[f[i].0] && f[i].1 >= 1
  {
    Tally(AvailabilityColumn(t))
  }

  /** `df["Família Olfativa"].value_counts()`, which skips blank cells: one
      row per non-blank family, with the number of family cells that hold it. */
  function CategoryCounts(t: Table): (f: Frequencies<string>)
    ensures Distinct(Keys(f))
    ensures forall c :: c in Keys(f) <==> Some(c) in Categories(t)
    ensures forall i :: 0 <= i < |f| ==> f[i].1 == multiset(Categories(t))[Some(f[i].0)] && f[i].1 >= 1
  {
    PresentCategoriesKeepsEveryCell(t);
    Tally(PresentCategories(t))
  }

  /** A label heads a row of the availability view exactly when some product carries it. */
  lemma {:induction false} AvailabilityKeysAreLabelsInUse(t: Table)
    ensures forall k :: k in Keys(AvailabilityCounts(t)) <==> exists p :: p in t && AvailabilityLabel(p.stock) == k
  {
    var labels := AvailabilityColumn(t);
    forall k ensures k in labels <==> exists p :: p in t && AvailabilityLabel(p.stock) == k {
      if k in labels {
        var i :| 0 <= i < |labels| && labels[i] == k;
        assert t[i] in t;
      }
      if exists p :: p in t && AvailabilityLabel(p.stock) == k {
        var p :| p in t && AvailabilityLabel(p.stock) == k;
        var i :| 0 <= i < |t| && t[i] == p;
        assert labels[i] == k;
      }
    }
  }

  /** A list without repeats drawn from a set is no longer than the set. */
  lemma {:induction false} DistinctWithin<K>(s: seq<K>, allowed: set<K>)
    requires Distinct(s)
    requires forall i :: 0 <= i < |s| ==> s[i] in allowed
    ensures |s| <= |allowed|
  {
    if s != [] {
      var rest := s[1..];
      forall i | 0 <= i < |rest| ensures rest[i] in allowed - {s[0]} {
        assert rest[i] == s[i + 1];
      }
      DistinctWithin(rest, allowed - {s[0]});
    }
  }

  /** The availability view has a row for a label exactly when some product
      carries it, so at most two rows, and its counts add up to the number of
      products in the full table. */
  lemma {:induction false} AvailabilityCountsShape(t: Table)
    ensures var f := AvailabilityCounts(t);
      && Distinct(Keys(f))
      && (forall i :: 0 <= i < |f| ==> f[i].0 == AVAILABLE || f[i].0 == UNAVAILABLE)
      && (AVAILABLE in Keys(f) <==> exists p :: p in t && p.stock > 0)
      && (UNAVAILABLE in Keys(f) <==> exists p :: p in t && p.stock <= 0)
      && |f| <= 2
      && Total(f) == |t|
  {
    TallyTotal(AvailabilityColumn(t));
    var f := AvailabilityCounts(t);
    var ks := Keys(f);
    AvailabilityKeysAreLabelsInUse(t);
    forall i | 0 <= i < |f| ensures f[i].0 == AVAILABLE || f[i].0 == UNAVAILABLE {
      assert ks[i] in ks;
    }
    DistinctWithin(ks, {AVAILABLE, UNAVAILABLE});
  }

  /** The counts of the family view add up to the number of products that
      have a family, which is the table's size only when no family cell is
      blank. */
  lemma {:induction false} CategoryCountsShape(t: Table)
    ensures var f := CategoryCounts(t);
      && Total(f) == |PresentCategories(t)|
      && Total(f) + multiset(Categories(t))[None] == |t|
      && (Total(f) == |t| <==> forall p :: p in t ==> p.category.Some?)
  {
    TallyTotal(PresentCategories(t));
    PresentCategoriesDropsBlanks(t);
  }

  /** Counting two values gives one row of count 2 when they are equal, and
      otherwise one row of count 1 each, in order of appearance. */
  lemma TallyOfTwo<K(!new)>(x: K, y: K)
    ensures Tally([x, y]) == if x == y then [(x, 2)] else [(x, 1), (y, 1)]
  {
    assert [x, y][..1] == [x];
    assert Tally([x]) == [(x, 1)] by {
      assert [x][..0] == [];
    }
  }
}
