/** Grouping the rows of the categories/products LEFT JOIN into a dictionary
    from category name to the list of its product names. */
module ProductGrouping {
  import opened Wrappers

  /** One result row. A category without products appears once, with no
      product name. */
  datatype Row = Row(categoryName: string, categoryId: int, productName: Option<string>)

  /** The accumulator: category name to product names, in row order. */
  type Groups = map<string, seq<Option<string>>>

  /** The category names that occur in the rows. */
  function CategoryNames(rows: seq<Row>): set<string> {
    set r | r in rows :: r.categoryName
  }

  /** The product names of category `c`'s rows, in row order. */
  function ProductsIn(rows: seq<Row>, c: string): seq<Option<string>> {
    if rows == [] then []
    else
      var last := rows[|rows| - 1];
      ProductsIn(rows[..|rows| - 1], c) + (if last.categoryName == c then [last.productName] else [])
  }

  /** The dictionary the reduce is meant to build. */
  function Grouped(rows: seq<Row>): Groups {
    map c | c in CategoryNames(rows) :: ProductsIn(rows, c)
  }

  /** `ProductsIn` of one more row. */
  lemma ProductsInSnoc(rows: seq<Row>, r: Row, c: string)
    ensures ProductsIn(rows + [r], c) ==
      ProductsIn(rows, c) + (if r.categoryName == c then [r.productName] else [])
  {
    assert (rows + [r])[..|rows|] == rows;
  }

  lemma CategoryNamesSnoc(rows: seq<Row>, r: Row)
    ensures CategoryNames(rows + [r]) == CategoryNames(rows) + {r.categoryName}
  {
    assert forall x :: x in rows + [r] <==> x in rows || x == r;
  }

  /** A name with no row has no products. */
  lemma {:induction false} ProductsInAbsent(rows: seq<Row>, c: string)
    requires c !in CategoryNames(rows)
    ensures ProductsIn(rows, c) == []
  {
    if rows != [] {
      var init := rows[..|rows| - 1];
      assert rows == init + [rows[|rows| - 1]];
      CategoryNamesSnoc(init, rows[|rows| - 1]);
      ProductsInAbsent(init, c);
    }
  }

  /** Order preservation: the products of earlier rows come first. */
  lemma {:induction false} ProductsInAppend(a: seq<Row>, b: seq<Row>, c: string)
    ensures ProductsIn(a + b, c) == ProductsIn(a, c) + ProductsIn(b, c)
    decreases |b|
  {
    if b == [] {
      assert a + b == a;
    } else {
      var init := b[..|b| - 1];
      var r := b[|b| - 1];
      assert b == init + [r];
      assert a + b == (a + init) + [r];
      ProductsInSnoc(a + init, r, c);
      ProductsInSnoc(init, r, c);
      ProductsInAppend(a, init, c);
    }
  }

  /** Processing one more row changes only that row's category entry, and
      only by appending the row's product name (a missing entry starts out
      empty); every other key is unchanged. */
  lemma GroupedSnoc(rows: seq<Row>, r: Row)
    ensures Grouped(rows + [r]) ==
      Grouped(rows)[r.categoryName :=
        (if r.categoryName in Grouped(rows) then Grouped(rows)[r.categoryName] else []) + [r.productName]]
  {
    var name := r.categoryName;
    var before, after := Grouped(rows), Grouped(rows + [r]);
    var expected := before[name := (if name in before then before[name] else []) + [r.productName]];
    CategoryNamesSnoc(rows, r);
    assert after.Keys == expected.Keys;
    forall c | c in after ensures after[c] == expected[c] {
      ProductsInSnoc(rows, r, c);
      if c == name && name !in before {
        ProductsInAbsent(rows, name);
      }
    }
  }

  /** Every row's category is a key, and there is no other key. */
  lemma GroupedKeys(rows: seq<Row>)
    ensures forall i :: 0 <= i < |rows| ==> rows[i].categoryName in Grouped(rows)
    ensures forall c :: c in Grouped(rows) ==> exists i :: 0 <= i < |rows| && rows[i].categoryName == c
  {
    forall c | c in Grouped(rows) ensures exists i :: 0 <= i < |rows| && rows[i].categoryName == c {
      var r :| r in rows && r.categoryName == c;
      var i :| 0 <= i < |rows| && rows[i] == r;
    }
  }

  /** Every row contributes its product name, or its null product name for
      a category without products, to its own category's list. */
  lemma {:induction false} RowContributes(rows: seq<Row>, i: nat)
    requires i < |rows|
    ensures rows[i].productName in ProductsIn(rows, rows[i].categoryName)
  {
    var init := rows[..|rows| - 1];
    var last := rows[|rows| - 1];
    assert rows == init + [last];
    ProductsInSnoc(init, last, rows[i].categoryName);
    if i < |rows| - 1 {
      RowContributes(init, i);
    }
  }

  /** Every key's list is non-empty. */
  lemma GroupedNonEmpty(rows: seq<Row>, c: string)
    requires c in Grouped(rows)
    ensures |Grouped(rows)[c]| > 0
  {
    var i :| 0 <= i < |rows| && rows[i].categoryName == c;
    RowContributes(rows, i);
  }

  // ---------------------------------------------------------------------
  // Count conservation
  // ---------------------------------------------------------------------

  /** Some key of a non-empty dictionary. */
  ghost function AnyKey(g: Groups): string
    requires g != map[]
  {
    var c :| c in g; c
  }

  /** The sum of the lengths of all the lists. */
  ghost function TotalLength(g: Groups): nat
    decreases |g|
  {
    if g == map[] then 0
    else
      var c := AnyKey(g);
      assert |g - {c}| < |g| by { assert (g - {c}).Keys == g.Keys - {c}; }
      |g[c]| + TotalLength(g - {c})
  }

  /** The sum does not depend on the key taken out first. */
  lemma {:induction false} TotalLengthRemove(g: Groups, c: string)
    requires c in g
    ensures TotalLength(g) == |g[c]| + TotalLength(g - {c})
    decreases |g|
  {
    var d := AnyKey(g);
    assert (g - {d}).Keys == g.Keys - {d};
    if d != c {
      assert (g - {c}).Keys == g.Keys - {c};
      assert g - {d} - {c} == g - {c} - {d};
      TotalLengthRemove(g - {d}, c);
      TotalLengthRemove(g - {c}, d);
    }
  }

  /** Replacing one entry changes the sum by the difference in length. */
  lemma TotalLengthUpdate(g: Groups, c: string, v: seq<Option<string>>)
    ensures TotalLength(g[c := v]) + (if c in g then |g[c]| else 0) == TotalLength(g) + |v|
  {
    TotalLengthRemove(g[c := v], c);
    assert g[c := v] - {c} == g - {c};
    if c in g {
      TotalLengthRemove(g, c);
    } else {
      assert g - {c} == g;
    }
  }

  /** Nothing is dropped or duplicated: the lists' lengths sum to the number
      of rows. */
  lemma {:induction false} GroupedConservesCount(rows: seq<Row>)
    ensures TotalLength(Grouped(rows)) == |rows|
  {
    if rows == [] {
      assert Grouped(rows) == map[];
    } else {
      var init := rows[..|rows| - 1];
      var r := rows[|rows| - 1];
      assert rows == init + [r];
      GroupedConservesCount(init);
      GroupedSnoc(init, r);
      var g := Grouped(init);
      TotalLengthUpdate(g, r.categoryName, (if r.categoryName in g then g[r.categoryName] else []) + [r.productName]);
    }
  }

  // ---------------------------------------------------------------------
  // The reduce
  // ---------------------------------------------------------------------

  /** The reduce over the rows: a key for every row's category and no other,
      each holding that category's product names in row order; no list is
      empty and the lists hold as many entries as there are rows. */
  method GroupByCategory(rows: seq<Row>) returns (acc: Groups)
    ensures acc.Keys == CategoryNames(rows)
    ensures forall c :: c in acc ==> acc[c] == ProductsIn(rows, c)
    ensures forall c :: c in acc ==> |acc[c]| > 0
    ensures TotalLength(acc) == |rows|
  {
    acc := map[];
    var i := 0;
    while i < |rows|
      invariant 0 <= i <= |rows|
      invariant acc == Grouped(rows[..i])
    {
      var curr := rows[i];
      assert rows[..i + 1] == rows[..i] + [curr];
      GroupedSnoc(rows[..i], curr);
      if curr.categoryName !in acc {
        acc := acc[curr.categoryName := []];
      }
      acc := acc[curr.categoryName := acc[curr.categoryName] + [curr.productName]];
      i := i + 1;
    }
    assert rows[..i] == rows;
    forall c | c in acc ensures |acc[c]| > 0 {
      GroupedNonEmpty(rows, c);
    }
    GroupedConservesCount(rows);
  }
}
