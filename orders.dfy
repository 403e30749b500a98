/**
 * orders.py: order creation against the product catalog. `create_order`
 * validates in a fixed order (product, quantity format, sign, stock), then
 * decrements the stock through `update_product` and appends one row to
 * `csv/orders.csv` with the next sequential ID. Prices and totals are whole
 * cents; the order date is not modelled.
 */
module Orders {
  import opened Wrappers
  import opened Text
  import opened Products

  datatype Order = Order(id: int, client: string, product: string, quantity: int, total: int)

  /** csv/orders.csv: absent, or a table. */
  datatype OrdersFile = OrdersMissing | Orders(rows: seq<Order>)

  function OrderRowsOf(f: OrdersFile): seq<Order>
  {
    if f.Orders? then f.rows else []
  }

  /** The `quantite` argument: already an integer, or text for `int()` to parse. */
  datatype QuantityArg = IntArg(n: int) | TextArg(text: string)

  /** `int(quantite)`; `None` where Python raises ValueError. */
  function QuantityValue(q: QuantityArg): Option<int>
  {
    match q
    case IntArg(n) => Some(n)
    case TextArg(t) => ParseInt(t)
  }

  /** Order IDs are 1, 2, 3, ... in file order. */
  predicate SequentialIds(rows: seq<Order>)
  {
    forall i :: 0 <= i < |rows| ==> rows[i].id == i + 1
  }

  predicate StockNonNegative(rows: seq<Product>)
  {
    forall i :: 0 <= i < |rows| ==> rows[i].quantity >= 0
  }

  /** The stock error message, with the available stock written by `str()`. */
  function StockMessage(stock: int): string
  {
    "Stock insuffisant (Dispo: " + IntToString(stock) + ")"
  }

  /** Appending the row `create_order` builds keeps the IDs sequential. */
  lemma AppendKeepsIdsSequential(rows: seq<Order>, o: Order)
    requires SequentialIds(rows) && o.id == |rows| + 1
    ensures SequentialIds(rows + [o])
  {
  }

  /** Taking at most the available stock from one product keeps every stock non-negative. */
  lemma DecrementKeepsStockNonNegative(rows: seq<Product>, i: nat, q: int)
    requires StockNonNegative(rows) && i < |rows| && 0 < q <= rows[i].quantity
    ensures StockNonNegative(rows[i := rows[i].(quantity := rows[i].quantity - q)])
  {
  }

  /** The orders file, and the catalog it takes stock from. */
  class OrderBook {
    const catalog: ProductCatalog
    var file: OrdersFile

    constructor (catalog: ProductCatalog, file: OrdersFile)
      ensures this.catalog == catalog && this.file == file
    {
      this.catalog := catalog;
      this.file := file;
    }

    /** `load_orders()`: a missing file is created empty. */
    method LoadOrders() returns (rows: seq<Order>)
      modifies this
      ensures rows == OrderRowsOf(old(file))
      ensures file == Orders(rows)
    {
      if file.OrdersMissing? {
        file := Orders([]);
      }
      rows := file.rows;
    }

    /**
     * `create_order(client, nom_produit, quantite)`. Every failure leaves the
     * orders file and the catalog's rows as they were; success decrements the
     * first matching product's stock and appends one order.
     */
    method CreateOrder(client: string, name: string, quantity: QuantityArg) returns (ok: bool, message: string)
      modifies this, catalog
      ensures var products := RowsOf(old(catalog.file));
        if !HasProduct(products, name) then
          && !ok && message == "Produit introuvable"
          && catalog.file == Initialized(old(catalog.file)) && file == old(file)
        else
          var i := FirstIndex(products, name);
          var stock := products[i].quantity;
          match QuantityValue(quantity)
          case None =>
            && !ok && message == "Format quantité invalide."
            && catalog.file == old(catalog.file) && file == old(file)
          case Some(q) =>
            if q <= 0 then
              && !ok && message == "La quantité doit être positive."
              && catalog.file == old(catalog.file) && file == old(file)
            else if q > stock then
              && !ok && message == StockMessage(stock)
              && catalog.file == old(catalog.file) && file == old(file)
            else
              var orders := OrderRowsOf(old(file));
              && ok && message == "Commande validée avec succès"
              && catalog.file == Products(products[i := products[i].(quantity := stock - q)])
              && file == Orders(orders + [Order(|orders| + 1, client, name, q, products[i].price * q)])
      ensures SequentialIds(OrderRowsOf(old(file))) ==> SequentialIds(OrderRowsOf(file))
      ensures StockNonNegative(RowsOf(old(catalog.file))) ==> StockNonNegative(RowsOf(catalog.file))
    {
      var products := catalog.LoadProducts();
      if !HasProduct(products, name) {
        return false, "Produit introuvable";
      }
      var record := products[FirstIndex(products, name)];
      var stock := record.quantity;
      var q;
      match QuantityValue(quantity) {
        case None =>
          return false, "Format quantité invalide.";
        case Some(n) =>
          q := n;
      }
      if q <= 0 {
        return false, "La quantité doit être positive.";
      }
      if q > stock {
        return false, StockMessage(stock);
      }
      var orders := LoadOrders();
      var newId := |orders| + 1;
      var total := record.price * q;
      var updated := catalog.UpdateProduct(name, name, record.category, record.price, stock - q);
      file := Orders(orders + [Order(newId, client, name, q, total)]);
      if StockNonNegative(products) {
        DecrementKeepsStockNonNegative(products, FirstIndex(products, name), q);
      }
      return true, "Commande validée avec succès";
    }
  }
}
