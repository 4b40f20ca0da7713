/** The operations on `products`: `add_product` and `get_all_products`. */
module Products {
  import opened Wrappers
  import opened Schema

  const ProductsTable := "products"
  const ProductAddedMessage := "Product added successfully!"

  /** The product dictionaries a table holds, one per row, with the ids
      dropped; identical products in distinct rows are counted apart. */
  ghost function Catalog(rows: multiset<ProductRow>): (c: multiset<Product>)
    ensures |c| == |rows|
    decreases |rows|
  {
    if rows == multiset{} then multiset{}
    else
      var row :| row in rows;
      Catalog(rows - multiset{row}) + multiset{row.product}
  }

  /** Any row may be the one taken off first. */
  lemma {:induction false} CatalogRemove(rows: multiset<ProductRow>, x: ProductRow)
    requires x in rows
    ensures Catalog(rows) == Catalog(rows - multiset{x}) + multiset{x.product}
    decreases |rows|
  {
    var y :| y in rows && Catalog(rows) == Catalog(rows - multiset{y}) + multiset{y.product};
    if y != x {
      var rest := rows - multiset{x} - multiset{y};
      assert rows - multiset{y} - multiset{x} == rest;
      assert x in rows - multiset{y};
      assert y in rows - multiset{x};
      CatalogRemove(rows - multiset{y}, x);
      CatalogRemove(rows - multiset{x}, y);
    }
  }

  /** Adding a row adds its product to the catalog once. */
  lemma CatalogAdd(rows: multiset<ProductRow>, x: ProductRow)
    ensures Catalog(rows + multiset{x}) == Catalog(rows) + multiset{x.product}
  {
    CatalogRemove(rows + multiset{x}, x);
    assert rows + multiset{x} - multiset{x} == rows;
  }

  /** The row an INSERT stores: the given columns under a fresh id. */
  function NewProductRow(t: ProductTable, p: Product): (row: ProductRow)
    ensures row.product == p
    ensures ValidProducts(t) ==> row.id !in ProductIds(t)
  {
    ProductRow(t.nextId, p)
  }

  /** `add_product`: inserts exactly one row holding the given columns
      under a fresh id; `users` is not touched. */
  function AddProduct(s: Store, name: string, category: string, price: Price, thumbnailUrl: string): (o: Outcome<string>)
    ensures s.products.None? ==> o == Outcome(Err(NoSuchTable(ProductsTable)), s)
    ensures s.products.Some? ==> o.result == Ok(ProductAddedMessage)
    ensures o.store.users == s.users
    ensures s.products.Some? ==>
              && o.store.products.Some?
              && |o.store.products.value.rows| == |s.products.value.rows| + 1
              && s.products.value.rows <= o.store.products.value.rows
              && (forall row :: row in o.store.products.value.rows - s.products.value.rows ==>
                    row.product == Product(name, category, price, thumbnailUrl)
                    && (ValidProducts(s.products.value) ==> row.id !in ProductIds(s.products.value)))
    ensures ValidStore(s) ==> ValidStore(o.store)
  {
    match s.products
    case None => Outcome(Err(NoSuchTable(ProductsTable)), s)
    case Some(t) =>
      var row := NewProductRow(t, Product(name, category, price, thumbnailUrl));
      assert t.rows + multiset{row} - t.rows == multiset{row};
      Outcome(Ok(ProductAddedMessage), s.(products := Some(ProductTable(t.rows + multiset{row}, t.nextId + 1))))
  }

  /** `get_all_products`: every product of the table, each row once, with
      its id dropped. SELECT without ORDER BY promises no order, so rows
      are taken in an unspecified one. */
  method GetAllProducts(s: Store) returns (r: Result<seq<Product>, Error>)
    ensures s.products.None? ==> r == Err(NoSuchTable(ProductsTable))
    ensures s.products.Some? ==> r.Ok? && multiset(r.value) == Catalog(s.products.value.rows)
    ensures s.products.Some? ==> |r.value| == |s.products.value.rows|
    ensures s.products.Some? && s.products.value.rows == multiset{} ==> r == Ok([])
  {
    if s.products.None? {
      return Err(NoSuchTable(ProductsTable));
    }
    var remaining := s.products.value.rows;
    var listed: seq<Product> := [];
    while remaining != multiset{}
      invariant multiset(listed) + Catalog(remaining) == Catalog(s.products.value.rows)
      decreases |remaining|
    {
      var row :| row in remaining;
      CatalogRemove(remaining, row);
      listed := listed + [row.product];
      remaining := remaining - multiset{row};
    }
    return Ok(listed);
  }

  /** An added product is listed once more than before; on a table that did
      not list it, it is listed exactly once, with every column as given. */
  lemma AddProductIsListed(s: Store, name: string, category: string, price: Price, thumbnailUrl: string)
    requires s.products.Some?
    ensures var p := Product(name, category, price, thumbnailUrl);
            var after := AddProduct(s, name, category, price, thumbnailUrl).store.products.value.rows;
            && Catalog(after) == Catalog(s.products.value.rows) + multiset{p}
            && (p !in Catalog(s.products.value.rows) ==> Catalog(after)[p] == 1)
  {
    var t := s.products.value;
    CatalogAdd(t.rows, NewProductRow(t, Product(name, category, price, thumbnailUrl)));
  }
}
