/**
 * inventory_manager.py: the in-memory product list of the GUI version of
 * `InventoryManager`, and what it shares with the CLI version (the rows,
 * the name search, the sort keys). A product is one row of `csv.DictReader`:
 * a map from column name to text. `float()` on a cell is the parameter
 * `toFloat`, which answers `None` where Python raises ValueError.
 */
module Inventory {
  import opened Wrappers
  import opened Text
  import opened Seqs
  import opened StableSort

  type Product = map<string, string>

  /** `product.get(column, default)`. */
  function Get(p: Product, column: string, default: string): string
  {
    if column in p then p[column] else default
  }

  /** `query.lower() in p.get('name', '').lower()`. */
  predicate Matches(p: Product, query: string)
  {
    IsSubstring(Lower(query), Lower(Get(p, "name", "")))
  }

  /**
   * `search_product(query)`: exactly the products whose lower-cased name
   * contains the lower-cased query, in list order.
   */
  function Search(products: seq<Product>, query: string): (r: seq<Product>)
    ensures forall i :: 0 <= i < |r| ==> r[i] in products && Matches(r[i], query)
    ensures forall i :: 0 <= i < |products| && Matches(products[i], query) ==> products[i] in r
    ensures IsSubsequence(r, products)
    ensures forall x :: multiset(r)[x] == if Matches(x, query) then multiset(products)[x] else 0
  {
    FilterIsSubsequence(products, p => Matches(p, query));
    FilterCounts(products, p => Matches(p, query));
    Filter(products, p => Matches(p, query))
  }

  /** Every name contains the empty query, so searching for "" returns the whole list. */
  lemma SearchEmptyQuery(products: seq<Product>)
    ensures Search(products, "") == products
  {
    forall p: Product ensures Matches(p, "") {
      EmptyIsSubstring(Lower(Get(p, "name", "")));
    }
    FilterAll(products, p => Matches(p, ""));
  }

  /** The exception the key function of `sort_products` raises. */
  datatype SortError = KeyError | ValueError

  /**
   * The sort key of one product: `float(x[key])` for "price" and "qty",
   * otherwise the cell itself, lower-cased when `fold` is set.
   */
  function SortKey(p: Product, key: string, fold: bool, toFloat: string -> Option<real>): Result<Key, SortError>
  {
    if key !in p then Err(KeyError)
    else if key == "price" || key == "qty" then
      match toFloat(p[key])
      case None => Err(ValueError)
      case Some(x) => Ok(Num(x))
    else Ok(Str(if fold then Lower(p[key]) else p[key]))
  }

  /** Product `i` is the first whose sort key cannot be computed. */
  predicate FirstFailure(products: seq<Product>, i: int, key: string, fold: bool, toFloat: string -> Option<real>)
  {
    && 0 <= i < |products| && SortKey(products[i], key, fold, toFloat).Err?
    && forall j :: 0 <= j < i ==> SortKey(products[j], key, fold, toFloat).Ok?
  }

  /**
   * The (key, product) pairs `sorted` compares. Keys are computed in list
   * order, so a failure reports the first failing product's error.
   */
  function Decorate(products: seq<Product>, key: string, fold: bool, toFloat: string -> Option<real>)
    : (r: Result<seq<(Key, Product)>, SortError>)
    ensures r.Ok? ==> Values(r.value) == products
    ensures r.Ok? ==> forall i :: 0 <= i < |r.value| ==> SortKey(r.value[i].1, key, fold, toFloat) == Ok(r.value[i].0)
    ensures r.Ok? <==> forall i :: 0 <= i < |products| ==> SortKey(products[i], key, fold, toFloat).Ok?
    ensures r.Err? ==> exists i :: FirstFailure(products, i, key, fold, toFloat) && SortKey(products[i], key, fold, toFloat) == Err(r.error)
  {
    if products == [] then Ok([])
    else match SortKey(products[0], key, fold, toFloat)
      case Err(e) => Err(e)
      case Ok(k) =>
        match Decorate(products[1..], key, fold, toFloat)
        case Err(e) =>
          var i :| FirstFailure(products[1..], i, key, fold, toFloat) && SortKey(products[1..][i], key, fold, toFloat) == Err(e);
          assert FirstFailure(products, i + 1, key, fold, toFloat);
          Err(e)
        case Ok(rest) =>
          assert forall i :: 1 <= i < |products| ==> products[i] == products[1..][i - 1];
          Ok([(k, products[0])] + rest)
  }

  /** The list `sort_products` leaves: sorted, or the error that left it unchanged. */
  function SortedProducts(products: seq<Product>, key: string, reverse: bool, fold: bool,
                          toFloat: string -> Option<real>): Result<seq<Product>, SortError>
  {
    match Decorate(products, key, fold, toFloat)
    case Err(e) => Err(e)
    case Ok(d) => Ok(Values(Sort(d, reverse)))
  }

  /** The products whose sort key is `k`, in list order. */
  function WithSortKey(products: seq<Product>, k: Key, key: string, fold: bool,
                       toFloat: string -> Option<real>): seq<Product>
  {
    if products == [] then []
    else WithSortKey(products[..|products| - 1], k, key, fold, toFloat)
         + (if SortKey(products[|products| - 1], key, fold, toFloat) == Ok(k) then [products[|products| - 1]] else [])
  }

  lemma {:induction false} WithKeyOfDecorated(d: seq<(Key, Product)>, k: Key, key: string, fold: bool,
                                              toFloat: string -> Option<real>)
    requires forall i :: 0 <= i < |d| ==> SortKey(d[i].1, key, fold, toFloat) == Ok(d[i].0)
    ensures WithKey(d, k) == WithSortKey(Values(d), k, key, fold, toFloat)
  {
    if d != [] {
      var init := d[..|d| - 1];
      WithKeyOfDecorated(init, k, key, fold, toFloat);
      assert Values(d)[..|d| - 1] == Values(init);
    }
  }

  /**
   * `sort_products(key, reverse)` with usable keys: the new list is a
   * permutation of the old one, ordered by key (non-increasing when
   * `reverse`), stable for every key, and sorting it again changes nothing.
   * With any missing key or non-numeric price/qty the list is kept.
   */
  lemma SortedProductsSpec(products: seq<Product>, key: string, reverse: bool, fold: bool,
                           toFloat: string -> Option<real>)
    ensures SortedProducts(products, key, reverse, fold, toFloat).Err?
        <==> exists i :: 0 <= i < |products| && SortKey(products[i], key, fold, toFloat).Err?
    ensures SortedProducts(products, key, reverse, fold, toFloat).Ok? ==>
      var r := SortedProducts(products, key, reverse, fold, toFloat).value;
      && multiset(r) == multiset(products)
      && (forall i :: 0 <= i < |r| ==> SortKey(r[i], key, fold, toFloat).Ok?)
      && (forall i, j :: 0 <= i < j < |r| ==>
            Ordered(SortKey(r[i], key, fold, toFloat).value, SortKey(r[j], key, fold, toFloat).value, reverse))
      && (forall k :: WithSortKey(r, k, key, fold, toFloat) == WithSortKey(products, k, key, fold, toFloat))
      && SortedProducts(r, key, reverse, fold, toFloat) == Ok(r)
  {
    var dec := Decorate(products, key, fold, toFloat);
    if dec.Ok? {
      var d := dec.value;
      var s := Sort(d, reverse);
      var r := Values(s);
      SortPermutes(d, reverse);
      SortPermutesValues(d, reverse);
      SortSorts(d, reverse);
      forall i | 0 <= i < |s|
        ensures SortKey(s[i].1, key, fold, toFloat) == Ok(s[i].0)
      {
        assert s[i] in multiset(d);
      }
      forall k
        ensures WithSortKey(r, k, key, fold, toFloat) == WithSortKey(products, k, key, fold, toFloat)
      {
        SortIsStable(d, reverse, k);
        WithKeyOfDecorated(d, k, key, fold, toFloat);
        WithKeyOfDecorated(s, k, key, fold, toFloat);
      }
      DecorateUnique(r, s, key, fold, toFloat);
      SortOfSorted(s, reverse);
    }
  }

  /** Decorating a list whose pairs are known gives back exactly those pairs. */
  lemma {:induction false} DecorateUnique(r: seq<Product>, s: seq<(Key, Product)>, key: string, fold: bool,
                                          toFloat: string -> Option<real>)
    requires Values(s) == r
    requires forall i :: 0 <= i < |s| ==> SortKey(s[i].1, key, fold, toFloat) == Ok(s[i].0)
    ensures Decorate(r, key, fold, toFloat) == Ok(s)
  {
    if r != [] {
      assert Values(s[1..]) == r[1..];
      DecorateUnique(r[1..], s[1..], key, fold, toFloat);
      assert s == [(s[0].0, r[0])] + s[1..];
    }
  }

  /** The console line `add_product` prints. */
  function AddedMessage(p: Product): string
  {
    "Produit '" + Get(p, "name", "Inconnu") + "' ajouté."
  }

  /** The GUI `InventoryManager`: the rows read from its CSV file at construction. */
  class InventoryManager {
    const toFloat: string -> Option<real>
    var products: seq<Product>

    /** `__init__`: `rows` is what `_load_products` read ([] for a missing file). */
    constructor (toFloat: string -> Option<real>, rows: seq<Product>)
      ensures this.toFloat == toFloat && products == rows
    {
      this.toFloat := toFloat;
      products := rows;
    }

    /** `add_product(product_data)`: appended at the end; returns the line it prints. */
    method AddProduct(productData: Product) returns (message: string)
      modifies this
      ensures products == old(products) + [productData]
      ensures message == AddedMessage(productData)
    {
      products := products + [productData];
      message := AddedMessage(productData);
    }

    /** `display_products()`: the list itself. */
    function DisplayProducts(): (r: seq<Product>)
      reads this
      ensures r == products
    {
      products
    }

    /** `search_product(query)`: `Search` on the current list, which it leaves unchanged. */
    function SearchProduct(query: string): (r: seq<Product>)
      reads this
      ensures r == Search(products, query)
    {
      Search(products, query)
    }

    /** `sort_products(key, reverse)`: lower-cased name keys; errors keep the list. */
    method SortProducts(key: string, reverse: bool)
      modifies this
      ensures products == match SortedProducts(old(products), key, reverse, true, toFloat)
                          case Ok(r) => r
                          case Err(_) => old(products)
    {
      match SortedProducts(products, key, reverse, true, toFloat)
      case Ok(r) =>
        products := r;
      case Err(_) =>
    }
  }
}
