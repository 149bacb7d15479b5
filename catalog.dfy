/**
 * The product catalog's own stock counter (ProductService): lookups that only
 * see active products, a soft delete, the search-term guard, the category
 * check on creation, and the check-then-decrement of a product's stock.
 */
module Catalog {
  import opened Base

  /** What the catalog service throws. The text of each message is kept as
      the facts it reports. */
  datatype CatalogError =
    | ProductNotFound(id: nat)
    | InvalidProduct(reason: InvalidReason)

  datatype InvalidReason =
    | EmptySearchTerm
    | CategoryNotFound(categoryId: nat)
    | InsufficientStock(available: int, requested: int)

  /** A row of the product table, restricted to the columns the stock logic
      uses. */
  datatype Product = Product(id: nat, name: string, stock: int, categoryId: nat, active: bool)

  /** ProductRequest without description, price and image. */
  datatype ProductRequest = ProductRequest(name: string, stock: int, categoryId: nat, active: bool)

  /** A ProductEvent as ProductEventPublisher receives it: the topic, the
      event type and the fields the stock logic sets. */
  datatype ProductEvent = ProductEvent(
    topic: string,
    eventType: string,
    productId: nat,
    stock: Option<int>,
    status: Option<string>)

  /** The creation message: its status reads "active" whatever the product's
      own flag says. */
  function CreatedEvent(p: Product): (r: ProductEvent)
    ensures r.topic == "product.created" && r.productId == p.id && r.stock == Some(p.stock)
    ensures r.status == Some("active")
  {
    ProductEvent("product.created", "CREATED", p.id, Some(p.stock), Some("active"))
  }

  /** The deletion message: no stock, status "deleted". */
  function DeletedEvent(p: Product): (r: ProductEvent)
    ensures r.topic == "product.deleted" && r.productId == p.id
    ensures r.stock.None? && r.status == Some("deleted")
  {
    ProductEvent("product.deleted", "DELETED", p.id, None, Some("deleted"))
  }

  /** The stock message: the product's stock after the change, no status. */
  function StockUpdatedEvent(p: Product): (r: ProductEvent)
    ensures r.topic == "product.stock.updated" && r.productId == p.id
    ensures r.stock == Some(p.stock) && r.status.None?
  {
    ProductEvent("product.stock.updated", "STOCK_UPDATED", p.id, Some(p.stock), None)
  }

  /** findByIdAndActiveTrue: the product with this id, if it exists and has
      not been soft-deleted. */
  function FindActive(products: map<nat, Product>, id: nat): (r: Option<Product>)
    ensures r.Some? <==> id in products && products[id].active
    ensures r.Some? ==> r.value == products[id]
  {
    if id in products && products[id].active then Some(products[id]) else None
  }

  /** The stock check and decrement of updateStock. Only "stock < quantity"
      is refused: nothing requires the quantity to be positive. */
  function TakeStock(p: Product, quantity: int): (r: Result<Product, CatalogError>)
    ensures r.Ok? <==> quantity <= p.stock
    ensures r.Err? ==> r.error == InvalidProduct(InsufficientStock(p.stock, quantity))
    ensures r.Ok? ==> && r.value.stock == p.stock - quantity
                      && r.value.stock >= 0
                      && r.value.(stock := p.stock) == p
  {
    if p.stock < quantity then Err(InvalidProduct(InsufficientStock(p.stock, quantity)))
    else Ok(p.(stock := p.stock - quantity))
  }

  /** Two successful decrements by non-negative quantities are one decrement
      by their sum, and the sum is refused exactly when one of them is. */
  lemma TakeStockTwice(p: Product, a: int, b: int)
    requires a >= 0 && b >= 0
    ensures (TakeStock(p, a).Ok? && TakeStock(TakeStock(p, a).value, b).Ok?)
            <==> TakeStock(p, a + b).Ok?
    ensures TakeStock(p, a).Ok? && TakeStock(TakeStock(p, a).value, b).Ok? ==>
              TakeStock(TakeStock(p, a).value, b) == TakeStock(p, a + b)
  {
    if TakeStock(p, a).Ok? && TakeStock(TakeStock(p, a).value, b).Ok? {
      assert TakeStock(TakeStock(p, a).value, b).value == p.(stock := p.stock - (a + b));
    }
  }

  /** Without a positivity check, a negative quantity puts stock back: a
      decrement by -5 of an empty product leaves 5. */
  lemma NegativeQuantityAddsStock()
    ensures var p := Product(1, "Widget", 0, 1, true);
            TakeStock(p, -5) == Ok(p.(stock := 5))
  {
  }

  /** The leading part of `s` that String.trim removes: characters up to and
      including U+0020. */
  function TrimStart(s: string): (r: string)
    ensures |r| <= |s| && r == s[|s| - |r|..]
    ensures r == [] || r[0] > ' '
    ensures forall i :: 0 <= i < |s| - |r| ==> s[i] <= ' '
  {
    if s != [] && s[0] <= ' ' then TrimStart(s[1..]) else s
  }

  /** The trailing part of `s` that String.trim removes. */
  function TrimEnd(s: string): (r: string)
    ensures |r| <= |s| && r == s[..|r|]
    ensures r == [] || r[|r| - 1] > ' '
    ensures forall i :: |r| <= i < |s| ==> s[i] <= ' '
  {
    if s != [] && s[|s| - 1] <= ' ' then TrimEnd(s[..|s| - 1]) else s
  }

  /** String.trim: both ends stripped of characters up to U+0020. */
  function Trim(s: string): (r: string)
    ensures |r| <= |s|
    ensures r == [] || (r[0] > ' ' && r[|r| - 1] > ' ')
  {
    TrimEnd(TrimStart(s))
  }

  /** A name trims to nothing exactly when it is made of characters up to
      U+0020 only. */
  lemma TrimEmptyIffBlank(s: string)
    ensures Trim(s) == [] <==> forall i :: 0 <= i < |s| ==> s[i] <= ' '
  {
    var t := TrimStart(s);
    if t != [] {
      assert s[|s| - |t|] == t[0];
      assert 0 < |t| && t[0] > ' ';
    }
  }

  /** Trimming what trim returned changes nothing. */
  lemma TrimIsIdempotent(s: string)
    ensures Trim(Trim(s)) == Trim(s)
  {
    var r := Trim(s);
    if r != [] {
      assert r[0] == TrimStart(s)[0];
      assert TrimStart(r) == r;
      assert TrimEnd(r) == r;
    }
  }

  /** ProductService over the product and category tables. Product ids are
      identity values handed out from `nextId`; products are never removed. */
  class ProductService {
    var products: map<nat, Product>
    var categories: set<nat>
    var nextId: nat
    /** Messages handed to ProductEventPublisher, oldest first. */
    ghost var events: seq<ProductEvent>

    ghost predicate Valid()
      reads this
    {
      && 1 <= nextId
      && forall id :: id in products ==> 1 <= id < nextId && products[id].id == id
    }

    constructor (categories: set<nat>)
      ensures Valid()
      ensures this.products == map[] && this.categories == categories && nextId == 1 && events == []
    {
      this.products := map[];
      this.categories := categories;
      this.nextId := 1;
      this.events := [];
    }

    /** getProductById: only a product that exists and is active is found. */
    method GetProductById(id: nat) returns (r: Result<Product, CatalogError>)
      ensures r.Ok? <==> id in products && products[id].active
      ensures r.Ok? ==> r.value == products[id]
      ensures r.Err? ==> r.error == ProductNotFound(id)
    {
      var found := FindActive(products, id);
      if found.None? {
        return Err(ProductNotFound(id));
      }
      r := Ok(found.value);
    }

    /** searchProducts, as far as its guard: a missing or blank name is
        refused; otherwise the trimmed name is what the query receives. */
    method SearchProducts(name: Option<string>) returns (r: Result<string, CatalogError>)
      ensures r.Err? <==> name.None? || forall i :: 0 <= i < |name.value| ==> name.value[i] <= ' '
      ensures r.Err? ==> r.error == InvalidProduct(EmptySearchTerm)
      ensures r.Ok? ==> r.value == Trim(name.value) && r.value != []
    {
      if name.None? {
        return Err(InvalidProduct(EmptySearchTerm));
      }
      var trimmed := Trim(name.value);
      TrimEmptyIffBlank(name.value);
      if trimmed == [] {
        return Err(InvalidProduct(EmptySearchTerm));
      }
      r := Ok(trimmed);
    }

    /** createProduct: refused with nothing saved when the category does not
        exist; otherwise a new product with the next id and a creation
        message, whose status reads "active" whatever the request says. */
    method CreateProduct(request: ProductRequest) returns (r: Result<Product, CatalogError>)
      requires Valid()
      modifies this
      ensures Valid() && categories == old(categories)
      ensures request.categoryId !in categories ==>
                && r == Err(InvalidProduct(CategoryNotFound(request.categoryId)))
                && products == old(products) && nextId == old(nextId) && events == old(events)
      ensures request.categoryId in categories ==>
                var p := Product(old(nextId), request.name, request.stock, request.categoryId, request.active);
                && old(nextId) !in old(products)
                && r == Ok(p)
                && products == old(products)[p.id := p]
                && nextId == old(nextId) + 1
                && events == old(events) + [CreatedEvent(p)]
    {
      if request.categoryId !in categories {
        return Err(InvalidProduct(CategoryNotFound(request.categoryId)));
      }
      var product := Product(nextId, request.name, request.stock, request.categoryId, request.active);
      products := products[nextId := product];
      nextId := nextId + 1;
      events := events + [CreatedEvent(product)];
      r := Ok(product);
    }

    /** deleteProduct: a soft delete. The product stays in the table with
        every other field as it was; only its active flag is cleared. */
    method DeleteProduct(id: nat) returns (r: Outcome<CatalogError>)
      requires Valid()
      modifies this
      ensures Valid() && categories == old(categories) && nextId == old(nextId)
      ensures id !in old(products) ==>
                r == Fail(ProductNotFound(id)) && products == old(products) && events == old(events)
      ensures id in old(products) ==>
                var p := old(products)[id].(active := false);
                && r == Pass
                && products == old(products)[id := p]
                && events == old(events) + [DeletedEvent(p)]
    {
      if id !in products {
        return Fail(ProductNotFound(id));
      }
      var product := products[id];
      product := product.(active := false);
      products := products[id := product];
      events := events + [DeletedEvent(product)];
      r := Pass;
    }

    /** updateStock: the product is looked up whether active or not; too
        little stock is refused with nothing changed; otherwise stock drops by
        the quantity and a stock message is sent. */
    method UpdateStock(id: nat, quantity: int) returns (r: Outcome<CatalogError>)
      requires Valid()
      modifies this
      ensures Valid() && categories == old(categories) && nextId == old(nextId)
      ensures id !in old(products) ==>
                r == Fail(ProductNotFound(id)) && products == old(products) && events == old(events)
      ensures id in old(products) ==>
                match TakeStock(old(products)[id], quantity)
                case Ok(taken) =>
                  r == Pass && products == old(products)[id := taken]
                  && events == old(events) + [StockUpdatedEvent(taken)]
                case Err(error) =>
                  r == Fail(error) && products == old(products) && events == old(events)
    {
      if id !in products {
        return Fail(ProductNotFound(id));
      }
      var product := products[id];
      if product.stock < quantity {
        return Fail(InvalidProduct(InsufficientStock(product.stock, quantity)));
      }
      product := product.(stock := product.stock - quantity);
      products := products[id := product];
      events := events + [StockUpdatedEvent(product)];
      r := Pass;
    }

    /** reserveStock: not implemented; it changes nothing. */
    method ReserveStock(id: nat, quantity: int)
      modifies this
      ensures products == old(products) && categories == old(categories)
      ensures nextId == old(nextId) && events == old(events)
    {
    }

    /** cancelReservation: not implemented; it changes nothing. */
    method CancelReservation(reservationId: nat)
      modifies this
      ensures products == old(products) && categories == old(categories)
      ensures nextId == old(nextId) && events == old(events)
    {
    }
  }

  /** A soft-deleted product is hidden from getProductById but still has its
      stock taken by updateStock, which looks products up by id alone. */
  method DeletedProductStillSellsStock() returns (found: Result<Product, CatalogError>,
                                                  taken: Outcome<CatalogError>, stock: int)
    ensures found == Err(ProductNotFound(1))
    ensures taken == Pass && stock == 7
  {
    var service := new ProductService({10});
    var created := service.CreateProduct(ProductRequest("Widget", 10, 10, true));
    var deleted := service.DeleteProduct(1);
    found := service.GetProductById(1);
    taken := service.UpdateStock(1, 3);
    stock := service.products[1].stock;
  }
}
