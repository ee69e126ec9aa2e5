# Order creation, modelled in Dafny

This project models the one piece of logic in the e-commerce backend: the
"place an order" procedure `CreateOrderService.execute`. It checks the
customer and the requested products, checks stock, builds the order's line
items with the prices captured at order time, and computes the new stock
level of every ordered product.

The model is pure. It lives in a single module, `CreateOrderService`, in
`create_order_service.dfy`:

- The repositories become inputs. `customerFound` is the result of the
  customer lookup. `existing` is whatever the product lookup returned, with
  no constraint on it. `persist` stands for the order repository's `create`:
  it maps the serialised line items to the line items of the stored order.
- The two writes become outputs. `Execute` returns, on success, the line
  items handed to `create`, the line items the stored order carries, and the
  stock updates handed to `updateQuantity`. On failure it returns only the
  error.
- `Validate` runs the four gates in the source's order: customer, empty
  product list, coverage, stock. On success it returns the serialised line
  items. `ComputeUpdates` computes the new stock levels.

Each filter and map of the source is a function (`Missing`, `ShortOfStock`,
`Serialize`, `ComputeUpdates`, `Find`). Each is proved against independent
reference definitions that quantify over positions:

- `Resolves`: some product has the identifier.
- `FirstMatch`: `j` is the first position with the identifier, which is what
  JavaScript's `find` returns.
- `Covered`: every requested identifier resolves.
- `StockSuffices`: no requested quantity exceeds its product's stock.

Prices and quantities are integers. The source does not reject zero or
negative requested quantities, and neither does the model.

Two details of the code decide edge cases:

- The second gate fires only when the product lookup returns an empty list.
  When it returns products but none has a requested id, the coverage gate
  reports every requested id as missing. An empty request then succeeds with
  an empty order.
- On a lookup miss while computing the new stock levels, the stock is taken
  as 0 and the line item's quantity is still subtracted.

Three behaviours of the source are shown as concrete lemmas:

- `HappyPath` orders two products, both within stock.
- `MissingIdsRepeated` shows that a missing identifier requested twice is
  reported twice.
- `RepeatedIdsPassSeparately` shows that two request items for one product
  pass the stock gate when each fits the stock, even when together they
  exceed it. Both updates are computed from the pre-order stock.

## Model

| member | source | states |
|---|---|---|
| CreateOrderService.Find | src/modules/orders/services/CreateOrderService.ts:63-65 | A lookup by id fails exactly when no product has that id. Otherwise it yields the product at the first position with that id. |
| CreateOrderService.ProductIds | src/modules/orders/services/CreateOrderService.ts:48 | The id list holds, position by position, the id of each product, so an id is in it exactly when some product has that id. |
| CreateOrderService.ItemIds | src/modules/orders/services/CreateOrderService.ts:56-57 | The id list of the missing items holds, position by position, the id of each item, so the reported ids keep the items' order and repetitions. |
| CreateOrderService.Missing | src/modules/orders/services/CreateOrderService.ts:50-52 | The missing items are exactly the request items whose id is not among the product ids. The list is empty exactly when every requested id is present. |
| CreateOrderService.MissingSnoc | src/modules/orders/services/CreateOrderService.ts:50-58 | The missing list keeps request order: appending a request item appends it to the missing list exactly when its id is absent. |
| CreateOrderService.MissingCount | src/modules/orders/services/CreateOrderService.ts:50-58 | A missing request item occurs in the missing list as often as in the request, so duplicates are repeated. A resolving item never occurs in it. |
| CreateOrderService.ShortOfStock | src/modules/orders/services/CreateOrderService.ts:62-74 | Every item kept asks for strictly more than its first matching product's stock. The list is empty exactly when no requested quantity exceeds stock, so a quantity equal to stock passes. |
| CreateOrderService.Serialize | src/modules/orders/services/CreateOrderService.ts:82-86 | Line item i carries request item i's id and quantity. Its price is that of the first product with that id, or 0 when none has it. |
| CreateOrderService.Validate | src/modules/orders/services/CreateOrderService.ts:33-86 | With no customer the result is CustomerNotFound. With a customer and an empty product list, it is NoProductsFound, even for an empty request. With some id unresolved, it is ProductsNotFound with the ids of the missing items in request order; an id is in that list exactly when it is requested and no product has it. With every id resolved and some quantity above stock, it is InsufficientStock. It succeeds exactly when no gate fails. On success it returns one line item per request item, in order, whose price is always a resolved product's price, so the 0 fallback is never used. |
| CreateOrderService.ComputeUpdates | src/modules/orders/services/CreateOrderService.ts:93-100 | One update per persisted line item, in order, with that item's id. Its quantity is the first matching product's stock minus the line item's quantity, or minus the quantity alone when no product matches. |
| CreateOrderService.UpdatesNonNegative | src/modules/orders/services/CreateOrderService.ts:62-100 | After a successful validation, update i computed from the serialised line items has request item i's id and its first matching product's stock minus the requested quantity, which is never negative. |
| CreateOrderService.UpdatesFromPreOrderStock | src/modules/orders/services/CreateOrderService.ts:95-100 | Two line items for the same product start from the same pre-order stock, so repeated ids do not accumulate. |
| CreateOrderService.UpdatesConcat | src/modules/orders/services/CreateOrderService.ts:95-100 | Updates are computed item by item: the updates of a concatenation are the concatenation of the updates. |
| CreateOrderService.Execute | src/modules/orders/services/CreateOrderService.ts:33-104 | The procedure fails exactly when validation fails, with the same error, and then writes nothing. On success it hands the serialised line items to persistence and computes one update per stored line item. The updates handed to the product repository are exactly those computed from the stored order's line items. When the stored order echoes its line items, update i has request item i's id and the first matching product's stock minus the requested quantity, which is never negative. |
| CreateOrderService.HappyPath | src/modules/orders/services/CreateOrderService.ts:82-100 | For products P1 (price 10, stock 5) and P2 (price 20, stock 3), ordering 2 and 3 gives line items (P1, 2, 10), (P2, 3, 20) and updates (P1, 3), (P2, 0). |
| CreateOrderService.MissingIdsRepeated | src/modules/orders/services/CreateOrderService.ts:50-59 | Requesting unknown X twice around a known P1 fails with ProductsNotFound carrying X twice. |
| CreateOrderService.RepeatedIdsPassSeparately | src/modules/orders/services/CreateOrderService.ts:62-100 | Two requests of 3 for a product with stock 5 pass the stock gate, and both updates are 2. |

## Left out

- Dependency-injection wiring and the constructor: they hold no logic.
- The repository implementations (`findById`, `findAllById`, `create`, `updateQuantity`): they are database calls. Their results are inputs and their arguments are outputs; `updateQuantity` is not applied to any stock state.
- Asynchronous sequencing, and the race between concurrent orders that check and decrement the same stock: this is concurrency.
- The missing compensation when `updateQuantity` fails after `create` has stored the order: this is a transactional I/O concern.
- The error class and the wording of its messages, including the `", "`-joined id text. The model keeps the error kind, and the list of missing ids for ProductsNotFound.
- JavaScript number semantics: fractional prices, and `|| 0` turning NaN into 0. Prices and quantities are integers. On integers `|| 0` differs from a plain lookup only when the lookup misses.
- Order fields other than the line items: the stored order is passed through unchanged.
