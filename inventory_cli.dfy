/**
 * CLI/inventory_manager.py: the console version of `InventoryManager`. It
 * shares the rows, the search and the sort keys with the GUI version, but
 * sorts names by their raw (case-sensitive) text and reports on the
 * console; the lines it prints are returned here.
 */
module CliInventory {
  import opened Wrappers
  import opened Text
  import opened StableSort
  import opened Inventory

  /** `f"{product.get(column)}"`: a missing column prints as "None". */
  function Shown(p: Product, column: string): string
  {
    Get(p, column, "None")
  }

  function ProductLine(index: nat, p: Product): string
  {
    "ID: " + IntToString(index + 1) + " | Nom: " + Shown(p, "name") + " | Prix: " + Shown(p, "price")
      + " | Qté: " + Shown(p, "qty")
  }

  /** One numbered line per product, in list order. */
  function ProductLines(products: seq<Product>): (r: seq<string>)
    ensures |r| == |products|
    ensures forall i :: 0 <= i < |r| ==> r[i] == ProductLine(i, products[i])
  {
    seq(|products|, i requires 0 <= i < |products| => ProductLine(i, products[i]))
  }

  /** The console line of `sort_products` for its outcome. */
  function SortMessage(key: string, outcome: Result<seq<Product>, SortError>): string
  {
    match outcome
    case Ok(_) => "Inventaire trié par '" + key + "'."
    case Err(KeyError) => "Clé de tri '" + key + "' non valide."
    case Err(ValueError) => "Erreur de conversion de type lors du tri (vérifiez les données)."
  }

  /** The CLI `InventoryManager`. */
  class InventoryManager {
    const toFloat: string -> Option<real>
    var products: seq<Product>

    /** `__init__`: `rows` is what `_load_products` read ([] for a missing file). */
    constructor (toFloat: string -> Option<real>, rows: seq<Product>)
      ensures this.toFloat == toFloat && products == rows
    {
      this.toFloat := toFloat;
      products := rows;
    }

    /** `add_product(product_data)`: appended at the end; returns the line it prints. */
    method AddProduct(productData: Product) returns (message: string)
      modifies this
      ensures products == old(products) + [productData]
      ensures message == AddedMessage(productData)
    {
      products := products + [productData];
      message := AddedMessage(productData);
    }

    /**
     * `display_products()`: the lines it prints (it returns nothing and
     * changes nothing): a notice for an empty list, otherwise a header, one
     * numbered line per product in list order, and a footer.
     */
    function DisplayLines(): (r: seq<string>)
      reads this
      ensures products == [] ==> r == ["L'inventaire est vide."]
      ensures products != [] ==>
        && |r| == |products| + 2
        && r[0] == "\n--- INVENTAIRE ---" && r[|r| - 1] == "------------------"
        && forall i :: 0 <= i < |products| ==> r[i + 1] == ProductLine(i, products[i])
    {
      if products == [] then ["L'inventaire est vide."]
      else ["\n--- INVENTAIRE ---"] + ProductLines(products) + ["------------------"]
    }

    /** `search_product(query)`: `Search` on the current list, which it leaves unchanged. */
    function SearchProduct(query: string): (r: seq<Product>)
      reads this
      ensures r == Search(products, query)
    {
      Search(products, query)
    }

    /**
     * `sort_products(key, reverse)`: raw name keys; a KeyError or ValueError
     * keeps the list and reports which.
     */
    method SortProducts(key: string, reverse: bool) returns (message: string)
      modifies this
      ensures products == match SortedProducts(old(products), key, reverse, false, toFloat)
                          case Ok(r) => r
                          case Err(_) => old(products)
      ensures message == SortMessage(key, SortedProducts(old(products), key, reverse, false, toFloat))
    {
      var outcome := SortedProducts(products, key, reverse, false, toFloat);
      message := SortMessage(key, outcome);
      match outcome
      case Ok(r) =>
        products := r;
      case Err(_) =>
    }
  }
}
