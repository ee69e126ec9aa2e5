/**
 * A model of the "place an order" use case: the validation gates, the
 * line-item serialisation and the new stock levels computed by
 * CreateOrderService.execute.
 *
 * The customer and product repositories become inputs (whether the customer
 * was found, and the list `existing` that the product lookup returned); the
 * order repository's `create` becomes the parameter `persist`, which maps the
 * serialised line items to the line items of the stored order.
 */
module CreateOrderService {

  datatype Option<T> = None | Some(value: T)

  /** A catalogue record as the product lookup returns it. */
  datatype Product = Product(id: string, price: int, quantity: int)

  /** One entry of the caller's request. */
  datatype RequestItem = RequestItem(id: string, quantity: int)

  /** One line item of an order, with the unit price captured at order time. */
  datatype LineItem = LineItem(productId: string, quantity: int, price: int)

  /** A new stock level for one product. */
  datatype Update = Update(id: string, quantity: int)

  datatype OrderError =
    | CustomerNotFound
    | NoProductsFound
    | ProductsNotFound(ids: seq<string>)
    | InsufficientStock

  datatype Result<T> = Ok(value: T) | Err(error: OrderError)

  /**
   * What a successful order writes: the line items handed to the order
   * repository, the line items of the order it returned, and the stock
   * updates handed to the product repository.
   */
  datatype Placed = Placed(created: seq<LineItem>, orderProducts: seq<LineItem>, updates: seq<Update>)

  // ---------------------------------------------------------------------------
  // Reference definitions, stated by quantifiers over positions

  /** Some product in `existing` has identifier `id`. */
  ghost predicate Resolves(existing: seq<Product>, id: string) {
    exists j :: 0 <= j < |existing| && existing[j].id == id
  }

  /** `j` is the first position in `existing` whose product has identifier `id`. */
  ghost predicate FirstMatch(existing: seq<Product>, id: string, j: int) {
    && 0 <= j < |existing|
    && existing[j].id == id
    && forall k :: 0 <= k < j ==> existing[k].id != id
  }

  /** Every requested identifier resolves. */
  ghost predicate Covered(existing: seq<Product>, request: seq<RequestItem>) {
    forall i :: 0 <= i < |request| ==> Resolves(existing, request[i].id)
  }

  /** No requested quantity exceeds the stock of the first product with that identifier. */
  ghost predicate StockSuffices(existing: seq<Product>, request: seq<RequestItem>) {
    forall i, j :: 0 <= i < |request| && FirstMatch(existing, request[i].id, j) ==>
      request[i].quantity <= existing[j].quantity
  }

  // ---------------------------------------------------------------------------
  // The computations of execute

  /** The first product in `existing` with identifier `id`, if there is one. */
  function Find(existing: seq<Product>, id: string): (r: Option<Product>)
    ensures r.None? <==> !Resolves(existing, id)
    ensures r.Some? ==> exists j :: FirstMatch(existing, id, j)
    ensures forall j :: FirstMatch(existing, id, j) ==> r == Some(existing[j])
  {
    if existing == [] then None
    else if existing[0].id == id then
      assert FirstMatch(existing, id, 0);
      Some(existing[0])
    else
      var r := Find(existing[1..], id);
      assert forall j :: FirstMatch(existing, id, j) ==> FirstMatch(existing[1..], id, j - 1);
      assert Resolves(existing, id) ==> Resolves(existing[1..], id) by {
        if Resolves(existing, id) {
          var j :| 0 <= j < |existing| && existing[j].id == id;
          assert existing[1..][j - 1].id == id;
        }
      }
      assert r.Some? ==> exists j :: FirstMatch(existing, id, j) by {
        if r.Some? {
          var j :| FirstMatch(existing[1..], id, j);
          assert FirstMatch(existing, id, j + 1);
        }
      }
      r
  }

  /** The identifiers of the products, in order. */
  function ProductIds(existing: seq<Product>): (r: seq<string>)
    ensures |r| == |existing|
    ensures forall j :: 0 <= j < |existing| ==> r[j] == existing[j].id
    ensures forall id :: id in r <==> Resolves(existing, id)
  {
    var r := seq(|existing|, j requires 0 <= j < |existing| => existing[j].id);
    assert forall j :: 0 <= j < |existing| ==> r[j] == existing[j].id;
    r
  }

  /** The identifiers of request items, in order. */
  function ItemIds(items: seq<RequestItem>): (r: seq<string>)
    ensures |r| == |items|
    ensures forall i :: 0 <= i < |items| ==> r[i] == items[i].id
  {
    seq(|items|, i requires 0 <= i < |items| => items[i].id)
  }

  /**
   * The request items whose identifier is not among `existingIds`, in
   * request order.
   */
  function Missing(existingIds: seq<string>, request: seq<RequestItem>): (r: seq<RequestItem>)
    ensures |r| <= |request|
    ensures forall x :: x in r <==> x in request && x.id !in existingIds
    ensures r == [] <==> forall i :: 0 <= i < |request| ==> request[i].id in existingIds
  {
    if request == [] then []
    else
      var rest := Missing(existingIds, request[1..]);
      assert forall i :: 1 <= i < |request| ==> request[i] == request[1..][i - 1];
      if request[0].id in existingIds then rest else [request[0]] + rest
  }

  /**
   * The request items whose first matching product has strictly less stock
   * than the requested quantity; items with no matching product are not kept.
   */
  function ShortOfStock(existing: seq<Product>, request: seq<RequestItem>): (r: seq<RequestItem>)
    ensures forall x :: x in r ==> x in request && exists j :: FirstMatch(existing, x.id, j) && existing[j].quantity < x.quantity
    ensures r == [] <==> StockSuffices(existing, request)
  {
    if request == [] then []
    else
      var rest := ShortOfStock(existing, request[1..]);
      var found := Find(existing, request[0].id);
      var short := found.Some? && found.value.quantity < request[0].quantity;
      assert forall i :: 1 <= i < |request| ==> request[i] == request[1..][i - 1];
      assert StockSuffices(existing, request) <==> !short && StockSuffices(existing, request[1..]) by {
        if StockSuffices(existing, request) {
          forall i, j | 0 <= i < |request[1..]| && FirstMatch(existing, request[1..][i].id, j)
            ensures request[1..][i].quantity <= existing[j].quantity
          {
            assert FirstMatch(existing, request[i + 1].id, j);
          }
          if found.Some? {
            var j :| FirstMatch(existing, request[0].id, j);
            assert found.value == existing[j];
          }
        }
        if !short && StockSuffices(existing, request[1..]) {
          forall i, j | 0 <= i < |request| && FirstMatch(existing, request[i].id, j)
            ensures request[i].quantity <= existing[j].quantity
          {
            if i > 0 {
              assert FirstMatch(existing, request[1..][i - 1].id, j);
            }
          }
        }
      }
      if short then [request[0]] + rest else rest
  }

  /**
   * The line items handed to the order repository: one per request item,
   * with the price of the first product of that identifier, or 0 when there
   * is none.
   */
  function Serialize(existing: seq<Product>, request: seq<RequestItem>): (r: seq<LineItem>)
    ensures |r| == |request|
    ensures forall i :: 0 <= i < |request| ==>
      r[i].productId == request[i].id && r[i].quantity == request[i].quantity
    ensures forall i, j :: 0 <= i < |request| && FirstMatch(existing, request[i].id, j) ==>
      r[i].price == existing[j].price
    ensures forall i :: 0 <= i < |request| && Resolves(existing, request[i].id) ==>
      exists j :: FirstMatch(existing, request[i].id, j) && r[i].price == existing[j].price
    ensures forall i :: 0 <= i < |request| && !Resolves(existing, request[i].id) ==> r[i].price == 0
  {
    seq(|request|, i requires 0 <= i < |request| =>
      var found := Find(existing, request[i].id);
      LineItem(request[i].id, request[i].quantity, if found.Some? then found.value.price else 0))
  }

  /**
   * The four gates of execute in their order, then the serialised line items.
   * The gates are computed with the filters above; the contract states them
   * by the reference definitions.
   */
  function Validate(customerFound: bool, existing: seq<Product>, request: seq<RequestItem>): (r: Result<seq<LineItem>>)
    ensures !customerFound ==> r == Err(CustomerNotFound)
    ensures customerFound && existing == [] ==> r == Err(NoProductsFound)
    ensures customerFound && existing != [] && !Covered(existing, request) ==>
      r == Err(ProductsNotFound(ItemIds(Missing(ProductIds(existing), request))))
    ensures customerFound && existing != [] && Covered(existing, request) && !StockSuffices(existing, request) ==>
      r == Err(InsufficientStock)
    ensures r.Err? && r.error.ProductsNotFound? ==> forall id :: id in r.error.ids <==>
      (exists i :: 0 <= i < |request| && request[i].id == id) && !Resolves(existing, id)
    ensures r.Ok? <==> customerFound && existing != [] && Covered(existing, request) && StockSuffices(existing, request)
    ensures r.Ok? ==> |r.value| == |request|
    ensures r.Ok? ==> forall i :: 0 <= i < |request| ==>
      && r.value[i].productId == request[i].id
      && r.value[i].quantity == request[i].quantity
      && exists j :: FirstMatch(existing, request[i].id, j) && r.value[i].price == existing[j].price
  {
    if !customerFound then Err(CustomerNotFound)
    else if |existing| == 0 then Err(NoProductsFound)
    else
      var missing := Missing(ProductIds(existing), request);
      if |missing| != 0 then Err(ProductsNotFound(ItemIds(missing)))
      else if |ShortOfStock(existing, request)| != 0 then Err(InsufficientStock)
      else Ok(Serialize(existing, request))
  }

  /**
   * The new stock levels handed to the product repository: one update per
   * persisted line item, with the stock of the first product of that
   * identifier (or 0 when there is none) minus the ordered quantity.
   */
  function ComputeUpdates(existing: seq<Product>, persisted: seq<LineItem>): (r: seq<Update>)
    ensures |r| == |persisted|
    ensures forall i :: 0 <= i < |persisted| ==> r[i].id == persisted[i].productId
    ensures forall i, j :: 0 <= i < |persisted| && FirstMatch(existing, persisted[i].productId, j) ==>
      r[i].quantity == existing[j].quantity - persisted[i].quantity
    ensures forall i :: 0 <= i < |persisted| && Resolves(existing, persisted[i].productId) ==>
      exists j :: FirstMatch(existing, persisted[i].productId, j) && r[i].quantity == existing[j].quantity - persisted[i].quantity
    ensures forall i :: 0 <= i < |persisted| && !Resolves(existing, persisted[i].productId) ==>
      r[i].quantity == -persisted[i].quantity
  {
    seq(|persisted|, i requires 0 <= i < |persisted| =>
      var found := Find(existing, persisted[i].productId);
      Update(persisted[i].productId, (if found.Some? then found.value.quantity else 0) - persisted[i].quantity))
  }

  /**
   * The whole of execute: on a failed gate nothing is written; otherwise the
   * serialised line items go to `persist`, and the updates are computed from
   * the line items the stored order carries.
   */
  function Execute(customerFound: bool, existing: seq<Product>, request: seq<RequestItem>,
                   persist: seq<LineItem> -> seq<LineItem>): (r: Result<Placed>)
    ensures r.Err? <==> Validate(customerFound, existing, request).Err?
    ensures r.Err? ==> r.error == Validate(customerFound, existing, request).error
    ensures r.Ok? ==> r.value.created == Validate(customerFound, existing, request).value
    ensures r.Ok? ==> r.value.orderProducts == persist(r.value.created)
    ensures r.Ok? ==> r.value.updates == ComputeUpdates(existing, r.value.orderProducts)
    ensures r.Ok? ==> |r.value.updates| == |r.value.orderProducts|
    ensures r.Ok? ==> forall i :: 0 <= i < |r.value.updates| ==>
      r.value.updates[i].id == r.value.orderProducts[i].productId
    ensures r.Ok? && persist(r.value.created) == r.value.created ==>
      |r.value.updates| == |request| &&
      forall i :: 0 <= i < |request| ==>
        && r.value.updates[i].id == request[i].id
        && r.value.updates[i].quantity >= 0
        && exists j :: FirstMatch(existing, request[i].id, j) &&
             r.value.updates[i].quantity == existing[j].quantity - request[i].quantity
  {
    match Validate(customerFound, existing, request)
    case Err(e) => Err(e)
    case Ok(lineItems) =>
      var orderProducts := persist(lineItems);
      var updates := ComputeUpdates(existing, orderProducts);
      UpdatesNonNegative(customerFound, existing, request);
      Ok(Placed(lineItems, orderProducts, updates))
  }

  // ---------------------------------------------------------------------------
  // Properties

  /** The missing list keeps request order: appending an item appends it when it is missing. */
  lemma {:induction false} MissingSnoc(existingIds: seq<string>, request: seq<RequestItem>, x: RequestItem)
    ensures Missing(existingIds, request + [x]) ==
      Missing(existingIds, request) + (if x.id in existingIds then [] else [x])
  {
    if request == [] {
      assert request + [x] == [x];
    } else {
      assert (request + [x])[1..] == request[1..] + [x];
      MissingSnoc(existingIds, request[1..], x);
    }
  }

  /** An item is missing exactly as often as it occurs in the request, or never when it resolves. */
  lemma {:induction false} MissingCount(existingIds: seq<string>, request: seq<RequestItem>, x: RequestItem)
    ensures multiset(Missing(existingIds, request))[x] ==
      if x.id in existingIds then 0 else multiset(request)[x]
  {
    if request != [] {
      assert request == [request[0]] + request[1..];
      MissingCount(existingIds, request[1..], x);
    }
  }

  /**
   * On success, with the stored order echoing the serialised line items, no
   * new stock level is negative.
   */
  lemma UpdatesNonNegative(customerFound: bool, existing: seq<Product>, request: seq<RequestItem>)
    requires Validate(customerFound, existing, request).Ok?
    ensures var u := ComputeUpdates(existing, Validate(customerFound, existing, request).value);
      |u| == |request| && forall i :: 0 <= i < |u| ==>
        && u[i].id == request[i].id
        && u[i].quantity >= 0
        && exists j :: FirstMatch(existing, request[i].id, j) &&
             u[i].quantity == existing[j].quantity - request[i].quantity
  {
  }

  /**
   * Every update starts from the pre-order stock: two line items with the same
   * product get new levels that differ only by their own quantities, so a
   * repeated identifier does not accumulate.
   */
  lemma UpdatesFromPreOrderStock(existing: seq<Product>, persisted: seq<LineItem>, i: int, k: int)
    requires 0 <= i < |persisted| && 0 <= k < |persisted|
    requires persisted[i].productId == persisted[k].productId
    ensures var u := ComputeUpdates(existing, persisted);
      u[i].quantity + persisted[i].quantity == u[k].quantity + persisted[k].quantity
  {
  }

  /** Updates are computed item by item: splitting the persisted list splits the updates. */
  lemma UpdatesConcat(existing: seq<Product>, a: seq<LineItem>, b: seq<LineItem>)
    ensures ComputeUpdates(existing, a + b) == ComputeUpdates(existing, a) + ComputeUpdates(existing, b)
  {
  }

  /** Two products, both ordered within stock. */
  lemma HappyPath()
    ensures var existing := [Product("P1", 10, 5), Product("P2", 20, 3)];
      var request := [RequestItem("P1", 2), RequestItem("P2", 3)];
      var items := [LineItem("P1", 2, 10), LineItem("P2", 3, 20)];
      && Validate(true, existing, request) == Ok(items)
      && ComputeUpdates(existing, items) == [Update("P1", 3), Update("P2", 0)]
  {
    var existing := [Product("P1", 10, 5), Product("P2", 20, 3)];
    var request := [RequestItem("P1", 2), RequestItem("P2", 3)];
    assert FirstMatch(existing, "P1", 0);
    assert FirstMatch(existing, "P2", 1);
    assert Covered(existing, request);
    assert StockSuffices(existing, request);
    var items := Validate(true, existing, request).value;
    assert items == [LineItem("P1", 2, 10), LineItem("P2", 3, 20)];
  }

  /** A repeated unknown identifier is reported once per occurrence, in request order. */
  lemma MissingIdsRepeated()
    ensures Validate(true, [Product("P1", 10, 5)],
                     [RequestItem("X", 1), RequestItem("P1", 1), RequestItem("X", 2)])
         == Err(ProductsNotFound(["X", "X"]))
  {
    var existing := [Product("P1", 10, 5)];
    var request := [RequestItem("X", 1), RequestItem("P1", 1), RequestItem("X", 2)];
    assert !Resolves(existing, "X");
    assert !Resolves(existing, request[0].id);
    assert !Covered(existing, request);
    assert ProductIds(existing) == ["P1"];
    assert Missing(["P1"], request[2..]) == [request[2]];
    assert Missing(["P1"], request[1..]) == [request[2]];
    assert Missing(["P1"], request) == [request[0], request[2]];
    assert ItemIds([request[0], request[2]]) == ["X", "X"];
  }

  /**
   * The stock gate looks at each request item alone: two items for the same
   * product, each within stock but exceeding it together, pass.
   */
  lemma RepeatedIdsPassSeparately()
    ensures var existing := [Product("P1", 10, 5)];
      var request := [RequestItem("P1", 3), RequestItem("P1", 3)];
      && Validate(true, existing, request) == Ok([LineItem("P1", 3, 10), LineItem("P1", 3, 10)])
      && ComputeUpdates(existing, [LineItem("P1", 3, 10), LineItem("P1", 3, 10)]) == [Update("P1", 2), Update("P1", 2)]
  {
    var existing := [Product("P1", 10, 5)];
    var request := [RequestItem("P1", 3), RequestItem("P1", 3)];
    assert FirstMatch(existing, "P1", 0);
    assert Covered(existing, request);
    assert StockSuffices(existing, request);
    var items := Validate(true, existing, request).value;
    assert items == [LineItem("P1", 3, 10), LineItem("P1", 3, 10)];
  }
}
