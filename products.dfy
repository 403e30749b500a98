/**
 * products.py: the product catalog `csv/products.csv` with columns `Nom`,
 * `Catégorie`, `Prix`, `Quantité`. Every operation loads the table, changes
 * it and writes it back; here the file is a field of `ProductCatalog` and a
 * write is one assignment to it. Prices are whole cents.
 */
module Products {
  import opened Seqs

  datatype Product = Product(name: string, category: string, price: int, quantity: int)

  /** csv/products.csv: absent, empty (no header), or a table. */
  datatype ProductsFile = ProductsMissing | ProductsEmpty | Products(rows: seq<Product>)

  /** What `load_products()` returns for a file (an empty file reads as no rows). */
  function RowsOf(f: ProductsFile): seq<Product>
  {
    if f.Products? then f.rows else []
  }

  /** The file after `init_products_csv()`: created with its header if missing. */
  function Initialized(f: ProductsFile): ProductsFile
  {
    if f.ProductsMissing? then Products([]) else f
  }

  predicate HasProduct(rows: seq<Product>, name: string)
  {
    exists i :: 0 <= i < |rows| && rows[i].name == name
  }

  predicate UniqueNames(rows: seq<Product>)
  {
    forall i, j :: 0 <= i < j < |rows| ==> rows[i].name != rows[j].name
  }

  /** `df.index[df["Nom"] == name][0]`: the first row with that name. */
  function FirstIndex(rows: seq<Product>, name: string): (i: nat)
    requires HasProduct(rows, name)
    ensures i < |rows| && rows[i].name == name
    ensures forall j :: 0 <= j < i ==> rows[j].name != name
  {
    if rows[0].name == name then 0
    else
      assert HasProduct(rows[1..], name) by {
        var k :| 0 <= k < |rows| && rows[k].name == name;
        assert rows[1..][k - 1] == rows[k];
      }
      1 + FirstIndex(rows[1..], name)
  }

  /** `df[df["Nom"] != name]`. */
  function WithoutProduct(rows: seq<Product>, name: string): seq<Product>
  {
    Filter(rows, (p: Product) => p.name != name)
  }

  /** Appending a product whose name is new keeps names unique. */
  lemma AddKeepsNamesUnique(rows: seq<Product>, p: Product)
    requires UniqueNames(rows) && !HasProduct(rows, p.name)
    ensures UniqueNames(rows + [p])
  {
    var r := rows + [p];
    forall i, j | 0 <= i < j < |r|
      ensures r[i].name != r[j].name
    {
      assert r[i] == rows[i];
      if j < |rows| {
        assert r[j] == rows[j];
      }
    }
  }

  /**
   * `update_product` does not check the new name: renaming the first of two
   * products to the second's name leaves two rows with one name.
   */
  lemma UpdateCanDuplicateNames()
    ensures var rows := [Product("Stylo", "Bureau", 150, 10), Product("Cahier", "Bureau", 300, 5)];
      && UniqueNames(rows)
      && HasProduct(rows, "Stylo")
      && !UniqueNames(rows[FirstIndex(rows, "Stylo") := Product("Cahier", "Bureau", 150, 10)])
  {
    var rows := [Product("Stylo", "Bureau", 150, 10), Product("Cahier", "Bureau", 300, 5)];
    assert rows[0].name == "Stylo";
    assert FirstIndex(rows, "Stylo") == 0;
    var updated := rows[0 := Product("Cahier", "Bureau", 150, 10)];
    assert updated[0].name == updated[1].name;
  }

  /**
   * Deletion leaves no row with the name and keeps every other row, as
   * often as it occurred and in its original order.
   */
  lemma WithoutProductSpec(rows: seq<Product>, name: string)
    ensures !HasProduct(WithoutProduct(rows, name), name)
    ensures forall i :: 0 <= i < |rows| && rows[i].name != name ==> rows[i] in WithoutProduct(rows, name)
    ensures IsSubsequence(WithoutProduct(rows, name), rows)
    ensures forall x :: multiset(WithoutProduct(rows, name))[x] == if x.name != name then multiset(rows)[x] else 0
    ensures !HasProduct(rows, name) ==> WithoutProduct(rows, name) == rows
  {
    var p := (r: Product) => r.name != name;
    FilterIsSubsequence(rows, p);
    FilterCounts(rows, p);
    if !HasProduct(rows, name) {
      FilterAll(rows, p);
    }
  }

  /** The catalog file and its operations. */
  class ProductCatalog {
    var file: ProductsFile

    constructor (file: ProductsFile)
      ensures this.file == file
    {
      this.file := file;
    }

    /** `init_products_csv()`. */
    method InitProductsCsv()
      modifies this
      ensures file == Initialized(old(file))
    {
      if file.ProductsMissing? {
        file := Products([]);
      }
    }

    /** `load_products()`. */
    method LoadProducts() returns (rows: seq<Product>)
      modifies this
      ensures file == Initialized(old(file))
      ensures rows == RowsOf(old(file))
    {
      InitProductsCsv();
      rows := RowsOf(file);
    }

    /**
     * `add_product(nom, cat, prix, qte)`: refused when the name is present;
     * otherwise one row appended at the end.
     */
    method AddProduct(name: string, category: string, price: int, quantity: int) returns (ok: bool)
      modifies this
      ensures ok == !HasProduct(RowsOf(old(file)), name)
      ensures file == if ok then Products(RowsOf(old(file)) + [Product(name, category, price, quantity)])
                      else Initialized(old(file))
    {
      var rows := LoadProducts();
      if HasProduct(rows, name) {
        return false;
      }
      file := Products(rows + [Product(name, category, price, quantity)]);
      return true;
    }

    /**
     * `update_product(old_name, new_name, new_cat, new_prix, new_qte)`: the
     * four cells of the first row named `oldName` are overwritten.
     */
    method UpdateProduct(oldName: string, newName: string, category: string, price: int, quantity: int)
      returns (ok: bool)
      modifies this
      ensures ok == HasProduct(RowsOf(old(file)), oldName)
      ensures file == if ok then
                        var rows := RowsOf(old(file));
                        Products(rows[FirstIndex(rows, oldName) := Product(newName, category, price, quantity)])
                      else Initialized(old(file))
    {
      var rows := LoadProducts();
      if HasProduct(rows, oldName) {
        var i := FirstIndex(rows, oldName);
        file := Products(rows[i := Product(newName, category, price, quantity)]);
        return true;
      }
      return false;
    }

    /** `delete_product(nom_produit)`: every row with that name removed. */
    method DeleteProduct(name: string) returns (ok: bool)
      modifies this
      ensures ok == HasProduct(RowsOf(old(file)), name)
      ensures file == if ok then Products(WithoutProduct(RowsOf(old(file)), name))
                      else Initialized(old(file))
    {
      var rows := LoadProducts();
      if HasProduct(rows, name) {
        file := Products(WithoutProduct(rows, name));
        return true;
      }
      return false;
    }
  }
}
