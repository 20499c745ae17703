/**
 * The catalogue page: the category list derived from the loaded products, and
 * the shown list, which keeps the products passing the search, category and
 * stock filters and sorts them by the chosen comparator.
 */
module ProductsPage {
  import opened Entities
  import opened Text
  import Seqs
  import opened Sorting
  import opened Store

  /** The stock selector. */
  datatype StockFilter = AnyStock | InStock | OutOfStock

  /** The sort selector. */
  datatype SortOption = ByName | PriceAsc | PriceDesc

  /** The toolbar's four controls. */
  datatype View = View(search: string, category: string, stock: StockFilter, sortBy: SortOption)

  // ------------------------------------------------------------- categories

  /** `result.map((p) => p.category)`. */
  function CategoryColumn(rows: seq<Product>): (r: seq<string>)
    ensures |r| == |rows| && forall i :: 0 <= i < |rows| ==> r[i] == rows[i].category
  {
    if rows == [] then [] else [rows[0].category] + CategoryColumn(rows[1..])
  }

  /** `filter(Boolean)` on strings: the empty string is the one falsy value. */
  function NonEmpty(): string -> bool {
    s => s != ""
  }

  /** The default order of `cats.sort()`: the string itself. */
  function TextKey(s: string): Key {
    ByText(s)
  }

  /** `[...new Set(categories.filter(Boolean))]`, then sorted. */
  function CategoriesOf(rows: seq<Product>): seq<string> {
    Sort(Seqs.Dedupe(Seqs.Filter(CategoryColumn(rows), NonEmpty())), TextKey)
  }

  /**
   * The category list is strictly ascending, hence free of repeats, and lists
   * exactly the non-empty categories the products carry.
   */
  lemma CategoriesSpec(rows: seq<Product>)
    ensures Seqs.Distinct(CategoriesOf(rows))
    ensures forall i, j :: 0 <= i < j < |CategoriesOf(rows)| ==> Below(CategoriesOf(rows)[i], CategoriesOf(rows)[j])
    ensures forall c :: c in CategoriesOf(rows) <==> c != "" && exists p :: p in rows && p.category == c
  {
    var column := CategoryColumn(rows);
    var named := Seqs.Filter(column, NonEmpty());
    var unique := Seqs.Dedupe(named);
    var cats := CategoriesOf(rows);
    Seqs.FilterMembers(column, NonEmpty());
    forall c ensures c in column <==> exists p :: p in rows && p.category == c {
      if c in column {
        var i :| 0 <= i < |column| && column[i] == c;
        assert rows[i] in rows;
      }
      if exists p :: p in rows && p.category == c {
        var p :| p in rows && p.category == c;
        var i :| 0 <= i < |rows| && rows[i] == p;
        assert column[i] == c;
      }
    }
    forall c ensures multiset(cats)[c] <= 1 {
      Seqs.DistinctOnce(unique, c);
    }
    Seqs.DistinctFromMultiset(cats);
    SortAscending(unique, TextKey);
    forall i, j | 0 <= i < j < |cats| ensures Below(cats[i], cats[j]) {
      AtMostIff(TextKey(cats[i]), TextKey(cats[j]));
    }
    forall c ensures c in cats <==> c in unique {
      assert multiset(cats)[c] == multiset(unique)[c];
    }
  }

  // ---------------------------------------------------------------- filters

  /** The search condition: no search, or the name or description contains it, both lowercased. */
  predicate SearchOk(search: string, p: Product) {
    search == "" || Includes(Lower(p.name), Lower(search)) || Includes(Lower(p.description), Lower(search))
  }

  /** The category condition: no category chosen, or exactly the chosen one. */
  predicate CategoryOk(category: string, p: Product) {
    category == "" || p.category == category
  }

  /** The stock condition. */
  predicate StockOk(stock: StockFilter, p: Product) {
    match stock
    case AnyStock => true
    case InStock => p.inStock
    case OutOfStock => !p.inStock
  }

  /**
   * The `filter` callback: a chain of early rejections, one per control. It
   * keeps exactly the products meeting all three conditions.
   */
  function Passes(v: View, p: Product): (b: bool)
    ensures b <==> SearchOk(v.search, p) && CategoryOk(v.category, p) && StockOk(v.stock, p)
  {
    if v.search != "" && !Includes(Lower(p.name), Lower(v.search)) && !Includes(Lower(p.description), Lower(v.search)) then false
    else if v.category != "" && p.category != v.category then false
    else if v.stock == InStock && !p.inStock then false
    else if v.stock == OutOfStock && p.inStock then false
    else true
  }

  function PassFn(v: View): Product -> bool {
    p => Passes(v, p)
  }

  /** The products passing every filter, in loaded order. */
  function Kept(products: seq<Product>, v: View): seq<Product> {
    Seqs.Filter(products, PassFn(v))
  }

  /** The comparator for each sort choice, as the key it compares. */
  function SortKey(o: SortOption): Product -> Key {
    match o
    case ByName => (p: Product) => ByText(p.name)
    case PriceAsc => (p: Product) => ByNumber(p.price)
    case PriceDesc => (p: Product) => ByNumber(-p.price)
  }

  /** `filteredProducts`: the kept products, stably sorted by the chosen comparator. */
  function Visible(products: seq<Product>, v: View): seq<Product> {
    Sort(Kept(products, v), SortKey(v.sortBy))
  }

  /**
   * The shown list is a permutation of the products passing all filters, adds
   * nothing, is ordered by the chosen comparator, and keeps products that
   * compare equal in their loaded order.
   */
  lemma VisibleSpec(products: seq<Product>, v: View)
    ensures multiset(Visible(products, v)) == multiset(Kept(products, v))
    ensures multiset(Visible(products, v)) <= multiset(products)
    ensures forall p :: p in Visible(products, v) <==> p in products && Passes(v, p)
    ensures Ascending(Visible(products, v), SortKey(v.sortBy))
    ensures forall k :: WithKey(Visible(products, v), SortKey(v.sortBy), k) == WithKey(Kept(products, v), SortKey(v.sortBy), k)
  {
    var kept := Kept(products, v);
    var r := Visible(products, v);
    Seqs.FilterMembers(products, PassFn(v));
    Seqs.FilterSubMultiset(products, PassFn(v));
    SortAscending(kept, SortKey(v.sortBy));
    forall k ensures WithKey(r, SortKey(v.sortBy), k) == WithKey(kept, SortKey(v.sortBy), k) {
      SortStable(kept, SortKey(v.sortBy), k);
    }
    forall p ensures p in r <==> p in kept {
      assert multiset(r)[p] == multiset(kept)[p];
    }
  }

  /** "price-asc" yields non-decreasing prices. */
  lemma PriceAscOrder(products: seq<Product>, v: View)
    requires v.sortBy == PriceAsc
    ensures forall i, j :: 0 <= i < j < |Visible(products, v)| ==> Visible(products, v)[i].price <= Visible(products, v)[j].price
  {
    VisibleSpec(products, v);
  }

  /** "price-desc" yields non-increasing prices. */
  lemma PriceDescOrder(products: seq<Product>, v: View)
    requires v.sortBy == PriceDesc
    ensures forall i, j :: 0 <= i < j < |Visible(products, v)| ==> Visible(products, v)[i].price >= Visible(products, v)[j].price
  {
    VisibleSpec(products, v);
  }

  /** "name" never puts a name after one that sorts below it. */
  lemma NameOrder(products: seq<Product>, v: View)
    requires v.sortBy == ByName
    ensures forall i, j :: 0 <= i < j < |Visible(products, v)| ==> !Below(Visible(products, v)[j].name, Visible(products, v)[i].name)
  {
    VisibleSpec(products, v);
  }

  /** With no filter, a product cheaper than every other comes first under "price-asc". */
  lemma CheapestFirst(products: seq<Product>, x: Product)
    requires x in products
    requires forall p :: p in products && p != x ==> x.price < p.price
    ensures Visible(products, View("", "", AnyStock, PriceAsc)) != []
    ensures Visible(products, View("", "", AnyStock, PriceAsc))[0] == x
  {
    var v := View("", "", AnyStock, PriceAsc);
    var r := Visible(products, v);
    VisibleSpec(products, v);
    NoFilterShowsAll(products, PriceAsc);
    PriceAscOrder(products, v);
    assert x in multiset(r);
    var k :| 0 <= k < |r| && r[k] == x;
    assert r[0] in products;
  }

  /** With no search, no category and any stock, every loaded product is shown. */
  lemma NoFilterShowsAll(products: seq<Product>, o: SortOption)
    ensures multiset(Visible(products, View("", "", AnyStock, o))) == multiset(products)
  {
    var v := View("", "", AnyStock, o);
    forall p | p in products ensures Passes(v, p) {
    }
    Seqs.FilterKeepsAll(products, PassFn(v));
  }

  /**
   * An empty search, or an empty category, excludes nothing: what is kept is
   * decided by the other two controls alone.
   */
  lemma EmptyControlsExcludeNothing(products: seq<Product>, v: View)
    ensures forall p :: p in Kept(products, v.(search := "")) <==> p in products && CategoryOk(v.category, p) && StockOk(v.stock, p)
    ensures forall p :: p in Kept(products, v.(category := "")) <==> p in products && SearchOk(v.search, p) && StockOk(v.stock, p)
  {
    Seqs.FilterMembers(products, PassFn(v.(search := "")));
    Seqs.FilterMembers(products, PassFn(v.(category := "")));
  }

  /** The search ignores case: a search and its lowercase form keep the same products. */
  lemma SearchIgnoresCase(products: seq<Product>, v: View)
    ensures Kept(products, v.(search := Lower(v.search))) == Kept(products, v)
  {
    LowerIdempotent(v.search);
    Seqs.FilterSame(products, PassFn(v.(search := Lower(v.search))), PassFn(v));
  }

  /**
   * The "in-stock" and "out-of-stock" lists divide the "all" list between
   * them, whatever the search, category and sort.
   */
  lemma StockPartition(products: seq<Product>, v: View)
    ensures multiset(Visible(products, v.(stock := InStock))) + multiset(Visible(products, v.(stock := OutOfStock)))
         == multiset(Visible(products, v.(stock := AnyStock)))
  {
    Seqs.FilterSplit(products, PassFn(v.(stock := AnyStock)), PassFn(v.(stock := InStock)), PassFn(v.(stock := OutOfStock)));
  }

  /** The stock filters keep exactly the products with the matching `inStock`. */
  lemma StockFilterSpec(products: seq<Product>, v: View)
    ensures forall p :: p in Visible(products, v.(stock := InStock)) <==> p in Visible(products, v.(stock := AnyStock)) && p.inStock
    ensures forall p :: p in Visible(products, v.(stock := OutOfStock)) <==> p in Visible(products, v.(stock := AnyStock)) && !p.inStock
  {
    VisibleSpec(products, v.(stock := InStock));
    VisibleSpec(products, v.(stock := OutOfStock));
    VisibleSpec(products, v.(stock := AnyStock));
  }

  /** The page's state. */
  class Page {
    const store: ProductStore
    var products: seq<Product>
    var categories: seq<string>
    var view: View

    /** Mounting the page: every control at its initial value, then the first load. */
    constructor (store: ProductStore)
      ensures this.store == store && view == View("", "", AnyStock, ByName)
      ensures products == store.rows && categories == CategoriesOf(store.rows)
    {
      this.store := store;
      view := View("", "", AnyStock, ByName);
      products := store.rows;
      categories := CategoriesOf(store.rows);
    }

    /**
     * `loadProducts`: the rows in storage order, then the categories
     * collected, de-duplicated and sorted in place.
     */
    method LoadProducts()
      modifies this`products, this`categories
      ensures products == store.rows && categories == CategoriesOf(store.rows)
    {
      var result := store.rows;
      products := result;
      var cats := Seqs.Dedupe(Seqs.Filter(CategoryColumn(result), NonEmpty()));
      cats := Sort(cats, TextKey);
      categories := cats;
    }
  }
}
