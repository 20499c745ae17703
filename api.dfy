/**
 * The server's start-up hook: when the products table is empty it is seeded
 * with ten fixed products; otherwise it is left alone.
 */
module Api {
  import Text
  import opened Entities
  import opened Store
  import opened Sorting
  import opened ProductsPage

  /** A seed record: the given fields over the declared defaults, price in cents. */
  function Seed(name: string, description: string, price: int, category: string, inStock: bool): Product {
    NewProduct.(name := name, description := description, price := price, category := category, inStock := inStock)
  }

  /** The ten products of the seed, in insertion order. */
  const SeedProducts: seq<Product> := [
    Seed("Wireless Mouse", "Ergonomic wireless mouse with USB receiver", 2999, "Electronics", true),
    Seed("Mechanical Keyboard", "RGB mechanical keyboard with Cherry MX switches", 8999, "Electronics", true),
    Seed("USB-C Hub", "7-in-1 USB-C hub with HDMI output", 4599, "Electronics", false),
    Seed("Notebook", "Hardcover lined notebook, 200 pages", 1299, "Office Supplies", true),
    Seed("Desk Lamp", "LED desk lamp with adjustable brightness", 3499, "Office Supplies", true),
    Seed("Webcam HD", "1080p HD webcam with built-in microphone", 5999, "Electronics", true),
    Seed("Standing Desk Mat", "Anti-fatigue standing desk mat", 3999, "Furniture", true),
    Seed("Monitor Stand", "Adjustable monitor stand with storage drawer", 4999, "Furniture", false),
    Seed("Wireless Charger", "Fast wireless charging pad for phones", 1999, "Electronics", true),
    Seed("Pen Set", "Premium ballpoint pen set, pack of 5", 899, "Office Supplies", true)
  ]

  /**
   * `initApi`: count the products; only when there are none, insert the ten
   * seed products in one batch.
   */
  method InitApi(store: ProductStore)
    requires store.Valid()
    modifies store
    ensures store.Valid()
    ensures old(store.rows) == [] ==> store.rows == Numbered(SeedProducts, old(store.nextId)) && store.nextId == old(store.nextId) + 10
    ensures old(store.rows) != [] ==> store.rows == old(store.rows) && store.nextId == old(store.nextId)
  {
    var n := store.Count();
    if n == 0 {
      store.InsertAll(SeedProducts);
    }
  }

  /**
   * Starting the server twice seeds the table at most once: the second run
   * finds the seeded products and inserts nothing.
   */
  method InitTwice(store: ProductStore)
    requires store.Valid()
    modifies store
    ensures store.Valid()
    ensures store.rows == (if old(store.rows) == [] then Numbered(SeedProducts, old(store.nextId)) else old(store.rows))
    ensures old(store.rows) == [] ==> |store.rows| == 10
  {
    InitApi(store);
    InitApi(store);
  }

  /** Two strictly ascending lists of the same strings are the same list. */
  lemma {:induction false} StrictlyAscendingUnique(a: seq<string>, b: seq<string>)
    requires forall i, j :: 0 <= i < j < |a| ==> Text.Below(a[i], a[j])
    requires forall i, j :: 0 <= i < j < |b| ==> Text.Below(b[i], b[j])
    requires forall x :: x in a <==> x in b
    ensures a == b
  {
    assert b != [] ==> b[0] in a;
    if a != [] {
      assert a[0] in b && b != [];
      if a[0] != b[0] {
        assert b[0] in a;
        var k :| 0 <= k < |a| && a[k] == b[0];
        var m :| 0 <= m < |b| && b[m] == a[0];
        Text.BelowAsymmetric(a[0], b[0]);
        assert false;
      }
      forall x ensures x in a[1..] <==> x in b[1..] {
        if x in a[1..] {
          var k :| 0 <= k < |a| - 1 && a[1..][k] == x;
          assert a[k + 1] in a;
          var j :| 0 <= j < |b| && b[j] == x;
          if j == 0 {
            assert Text.Below(a[0], a[k + 1]);
            Text.BelowIrreflexive(x);
          }
          assert b[1..][j - 1] == x;
        }
        if x in b[1..] {
          var k :| 0 <= k < |b| - 1 && b[1..][k] == x;
          assert b[k + 1] in b;
          var j :| 0 <= j < |a| && a[j] == x;
          if j == 0 {
            assert Text.Below(b[0], b[k + 1]);
            Text.BelowIrreflexive(x);
          }
          assert a[1..][j - 1] == x;
        }
      }
      StrictlyAscendingUnique(a[1..], b[1..]);
      assert a == [a[0]] + a[1..] && b == [b[0]] + b[1..];
    }
  }

  /** The seed's three categories, in code-unit order. */
  const SeedCategoryList := ["Electronics", "Furniture", "Office Supplies"]

  /** Where the seeded rows' categories come from: one of the three, each carried by some row. */
  predicate CategoriesLikeSeed(rows: seq<Product>) {
    && |rows| == 10
    && rows[0].category == "Electronics" && rows[6].category == "Furniture" && rows[3].category == "Office Supplies"
    && (forall i :: 0 <= i < 10 ==> rows[i].category in SeedCategoryList)
  }

  /** Where the seeded rows' prices put them: the pen set last and cheapest, the wireless mouse first. */
  predicate PricesLikeSeed(rows: seq<Product>) {
    && |rows| == 10
    && rows[0].name == "Wireless Mouse"
    && rows[9].name == "Pen Set" && rows[9].price == 899
    && (forall i :: 0 <= i < 9 ==> rows[i].price > 899)
  }

  /** The seed records themselves carry those categories. */
  lemma SeedProductCategories()
    ensures CategoriesLikeSeed(SeedProducts)
  {
    assert SeedProducts[0].category == "Electronics" && SeedProducts[1].category == "Electronics";
    assert SeedProducts[2].category == "Electronics" && SeedProducts[3].category == "Office Supplies";
    assert SeedProducts[4].category == "Office Supplies" && SeedProducts[5].category == "Electronics";
    assert SeedProducts[6].category == "Furniture" && SeedProducts[7].category == "Furniture";
    assert SeedProducts[8].category == "Electronics" && SeedProducts[9].category == "Office Supplies";
  }

  /** The seed, numbered from any first id, has those category facts: numbering changes only ids. */
  lemma SeededCategories(first: nat)
    ensures CategoriesLikeSeed(Numbered(SeedProducts, first))
  {
    SeedProductCategories();
    var rows := Numbered(SeedProducts, first);
    forall i | 0 <= i < 10 ensures rows[i].category == SeedProducts[i].category {
    }
  }

  /** The seed, numbered from any first id, has those price facts. */
  lemma SeededPrices(first: nat)
    ensures PricesLikeSeed(Numbered(SeedProducts, first))
  {
  }

  /** The three names are in strictly ascending code-unit order. */
  lemma SeedCategoryListAscending()
    ensures forall i, j :: 0 <= i < j < |SeedCategoryList| ==> Text.Below(SeedCategoryList[i], SeedCategoryList[j])
  {
    assert Text.Below(SeedCategoryList[0], SeedCategoryList[1]);
    assert Text.Below(SeedCategoryList[1], SeedCategoryList[2]);
  }

  /** In rows like the seed, the non-empty categories carried are exactly the three. */
  lemma CategoriesCarried(rows: seq<Product>)
    requires CategoriesLikeSeed(rows)
    ensures forall c :: (c != "" && exists p :: p in rows && p.category == c) <==> c in SeedCategoryList
  {
    forall c | c in SeedCategoryList ensures exists p :: p in rows && p.category == c {
      var i := if c == "Electronics" then 0 else if c == "Furniture" then 6 else 3;
      assert rows[i] in rows && rows[i].category == c;
    }
    forall p | p in rows ensures p.category in SeedCategoryList {
      var i :| 0 <= i < |rows| && rows[i] == p;
    }
  }

  /** Rows like the seed list exactly three categories, in code-unit order. */
  lemma CategoriesAsSeeded(rows: seq<Product>)
    requires CategoriesLikeSeed(rows)
    ensures CategoriesOf(rows) == SeedCategoryList
  {
    CategoriesSpec(rows);
    CategoriesCarried(rows);
    SeedCategoryListAscending();
    StrictlyAscendingUnique(CategoriesOf(rows), SeedCategoryList);
  }

  /** In rows like the seed, the pen set comes first under "price-asc" and the wireless mouse later. */
  lemma CheapestAsSeeded(rows: seq<Product>)
    requires PricesLikeSeed(rows)
    ensures Visible(rows, View("", "", AnyStock, PriceAsc)) != []
    ensures Visible(rows, View("", "", AnyStock, PriceAsc))[0].name == "Pen Set"
    ensures exists m :: 0 < m < |Visible(rows, View("", "", AnyStock, PriceAsc))|
              && Visible(rows, View("", "", AnyStock, PriceAsc))[m].name == "Wireless Mouse"
  {
    forall p | p in rows && p != rows[9] ensures rows[9].price < p.price {
      var i :| 0 <= i < |rows| && rows[i] == p;
    }
    CheapestFirst(rows, rows[9]);
    var r := Visible(rows, View("", "", AnyStock, PriceAsc));
    VisibleSpec(rows, View("", "", AnyStock, PriceAsc));
    assert rows[0] in r;
    var m :| 0 <= m < |r| && r[m] == rows[0];
    assert m != 0;
  }

  /** The seeded table's distinct categories, in the order the page lists them. */
  lemma SeedCategories(first: nat)
    ensures CategoriesOf(Numbered(SeedProducts, first)) == ["Electronics", "Furniture", "Office Supplies"]
  {
    SeededCategories(first);
    CategoriesAsSeeded(Numbered(SeedProducts, first));
  }

  /** Exactly two seeded products are out of stock: the USB-C hub and the monitor stand. */
  lemma SeedOutOfStock(first: nat)
    ensures |Numbered(SeedProducts, first)| == 10
    ensures forall i :: 0 <= i < 10 ==> (!Numbered(SeedProducts, first)[i].inStock <==> i == 2 || i == 7)
    ensures Numbered(SeedProducts, first)[2].name == "USB-C Hub" && Numbered(SeedProducts, first)[7].name == "Monitor Stand"
  {
  }

  /**
   * Sorted by price ascending with no filter, the seeded table starts with the
   * pen set, the cheapest product, and shows the wireless mouse after it.
   */
  lemma SeedCheapestFirst(first: nat)
    ensures Visible(Numbered(SeedProducts, first), View("", "", AnyStock, PriceAsc)) != []
    ensures Visible(Numbered(SeedProducts, first), View("", "", AnyStock, PriceAsc))[0].name == "Pen Set"
    ensures exists m :: 0 < m < |Visible(Numbered(SeedProducts, first), View("", "", AnyStock, PriceAsc))|
              && Visible(Numbered(SeedProducts, first), View("", "", AnyStock, PriceAsc))[m].name == "Wireless Mouse"
  {
    SeededPrices(first);
    CheapestAsSeeded(Numbered(SeedProducts, first));
  }
}
