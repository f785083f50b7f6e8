# Product catalog store, modelled in Dafny

The backend of this product catalog service (`be/app/main.py`) keeps three
database tables, `products`, `images` and `price_history`, and exposes six
HTTP endpoints over them:

- `create_product` stores a product under the id the client sends, then one
  image row per requested image.
- `get_products` lists every product with its images.
- `get_product` returns one product with its images, or 404.
- `update_product_price` overwrites a product's price. It appends a
  price-history row only when the new price differs from the old one.
- `get_product_price_history` returns a product's history rows, or 404 when
  there are none.
- `delete_product` removes a product, or answers 404. The relationships
  from products to images and history have no delete cascade, so the ORM
  keeps the product's image and history rows and sets their `product_id`
  to null.

The model has three modules:

- `Catalog` (`catalog.dfy`) holds the tables as one value (`Tables`). It
  defines the read endpoints as queries and the write endpoints as functions
  from the old tables to the new tables and the response. A 404 is the
  `NotFound` case of `Result`.
- `CatalogLaws` (`catalog_laws.dfy`) proves what the endpoints promise,
  mostly through later reads.
- `CatalogStore` (`catalog_store.dfy`) is the store as the code uses it: a
  class whose fields are the three tables. It has one method per endpoint.
  Each writing method says what it does to each table and that its result
  equals the `Catalog` function of the same name.

The ORM calls become map and sequence operations:

- `query(...).filter(...).first()` becomes a map lookup.
- `filter(product_id == k)` becomes `Select`, which keeps the matching rows
  in stored order.
- `db.add` becomes an append.
- `db.delete` removes a map key and clears the `product_id` of the rows
  that pointed at it (`UnlinkImages`, `UnlinkHistory`).

The database assigns the keys of image and history rows. The model uses two
counters for this (`nextImageId`, `nextHistoryId`). The `product_id`
column is nullable and is modelled as an `Option`. The invariant `Valid`
says two things:

- the row keys are unique and increase in insertion order;
- every row that has a `product_id` points at a stored product.

Some behaviours of the code that the model keeps:

- `create_product` does no validation of name or price. It uses the id the
  client supplies rather than generating one. It commits in two steps.
- `get_product_price_history` has no ORDER BY. The model claims only
  insertion order (`CatalogLaws.HistoryInStoredOrder`), not timestamp order.
- Prices are stored and compared, never computed with. They are modelled as
  integers, following the `Integer` column in `be/app/model.py:27` and the
  `int` field in `be/app/Schema.py:15`, rather than the `Float` columns of
  `main.py`.

## Model

| member | source | states |
|---|---|---|
| `Catalog.ImageViews` | be/app/main.py:102 | one `ImageResponse` per image row, in row order, carrying the row's key and url |
| `Catalog.View` | be/app/main.py:111-117 | the `ProductResponse` of a stored product: its id, name, description and price, and exactly one image view per image row whose `product_id` is the id |
| `Catalog.NewImages` | be/app/main.py:87-89 | the rows the loop inserts: one per request image, in request order, with the request's url, a key counted up from the next database key, and `product_id` the new product |
| `Catalog.WithProduct` | be/app/main.py:83-89 | after the two inserts the id set has grown by the new id, which holds the request's fields; other products are unchanged; the old image rows are a prefix of the new table, which has one more row per request image; history is untouched |
| `Catalog.UnlinkImages` | be/app/main.py:149 | deleting a product keeps every image row with its key and url; rows that pointed at the product get a null `product_id`; other rows are unchanged; no row points at the product afterwards |
| `Catalog.UnlinkHistory` | be/app/main.py:149 | the same for price-history rows, which keep their key and price |
| `Catalog.Select` | be/app/main.py:138 | the filtered rows are exactly the stored rows whose key matches, and there are never more of them than stored rows |
| `Catalog.GetProduct` | be/app/main.py:106-117 | 404 iff no product has the id; otherwise the response carries the stored name, description and price, and has one image view per image row that points at the id, with its key and url |
| `Catalog.GetProducts` | be/app/main.py:93-104 | every listed entry is a stored product as `get_product` returns it, and every stored product is listed |
| `Catalog.GetPriceHistory` | be/app/main.py:136-141 | 404 iff no history row carries the id, whether or not the product exists; otherwise the rows returned are exactly the history rows of that id |
| `Catalog.CreateProduct` | be/app/main.py:81-91 | creating a product keeps the invariant: keys unique and in insertion order, and every owned row points at a stored product |
| `Catalog.UpdateProductPrice` | be/app/main.py:120-133 | updating a price keeps the invariant |
| `Catalog.DeleteProduct` | be/app/main.py:143-151 | deleting a product, and clearing the `product_id` of its rows, keeps the invariant |
| `CatalogLaws.UpdateUnknownChangesNothing` | be/app/main.py:122-124 | an unknown id answers 404 and leaves all three tables unchanged |
| `CatalogLaws.UpdateSetsPrice` | be/app/main.py:125-127 | for a stored product the new price is stored and returned, even when it equals the old one; the response is the old `get_product` answer with only the price replaced |
| `CatalogLaws.UpdateAppendsHistoryIffChanged` | be/app/main.py:128-132 | the history table grows by exactly the row (id, new price), at its end, iff the price changed; otherwise it is unchanged |
| `CatalogLaws.UpdateExtendsProductHistory` | be/app/main.py:128-132 | seen through `get_product_price_history`, a change appends the new price to the product's history; an unchanged price leaves the answer as it was |
| `CatalogLaws.UpdateTouchesOnlyItsProduct` | be/app/main.py:122-133 | images, the set of stored ids, every other product and every other product's history are unchanged |
| `CatalogLaws.UpdateToSamePriceIsNoOp` | be/app/main.py:125-132 | setting the current price leaves the tables exactly as they were and returns the product unchanged |
| `CatalogLaws.TwoPriceChanges` | be/app/main.py:128-132 | two successive changes to different prices add two history rows in call order, and the stored price is that of the last row |
| `CatalogLaws.HistoryInStoredOrder` | be/app/main.py:138 | under the key invariant, the history returned is in insertion order |
| `CatalogLaws.NewProductHasNoHistory` | be/app/main.py:139-140 | a new product that was never repriced and an id that was never stored both get 404 from the history endpoint |
| `CatalogLaws.CreateThenGet` | be/app/main.py:83-91 | the product is stored with the request's id, name, description and price; `get_product` then returns the same response as create; the id set grows by that id; history is unchanged |
| `CatalogLaws.CreateAppendsImages` | be/app/main.py:87-91 | the returned images are the rows already owned by the id, followed by the rows inserted for the request images |
| `CatalogLaws.InsertedImageViews` | be/app/main.py:87-89 | one inserted image per request image, in request order, with the request's url and a database key; the request's image ids are not used |
| `CatalogLaws.CreateStoresRequestImages` | be/app/main.py:87-91 | when no image row already carries the id, the product's images are exactly the inserted ones |
| `CatalogLaws.CreateOnValidStoresRequestImages` | be/app/main.py:87-91 | under the invariant no row already carries a new id, so the created product's images are exactly the inserted ones |
| `CatalogLaws.CreateTouchesOnlyItsProduct` | be/app/main.py:83-90 | every other product and every other product's history read as before |
| `CatalogLaws.DeleteUnknownChangesNothing` | be/app/main.py:145-147 | an unknown id answers 404 and changes nothing |
| `CatalogLaws.DeleteKeepsRowsUnlinked` | be/app/main.py:149 | after a delete, every image and history row is still there with its key, url or price, but no row points at the deleted id |
| `CatalogLaws.DeleteKeepsOtherRows` | be/app/main.py:149 | the image rows and history rows of every other product are selected exactly as before |
| `CatalogLaws.DeleteThenGet` | be/app/main.py:145-151 | a stored product is removed. `get_product` and `get_product_price_history` then answer 404 for it, the listing loses exactly that product, and every other product and its history read as before |
| `CatalogLaws.DeleteThenRecreate` | be/app/main.py:143-151 | a product created again under a deleted id gets only the new request's images and no price history |
| `CatalogStore.Store.constructor` | be/app/main.py:58 | a new store has empty tables and satisfies the key invariant |
| `CatalogStore.Store.CreateProduct` | be/app/main.py:81-91 | inserts the product row, then, through `InsertImages`, one image row per request image in request order; history unchanged; the invariant is kept; agrees with `Catalog.CreateProduct` |
| `CatalogStore.Store.InsertImages` | be/app/main.py:87-89 | the loop appends exactly the rows of `NewImages` and advances the image key by the number of request images; no other table changes |
| `CatalogStore.Store.GetProducts` | be/app/main.py:93-104 | returns `Catalog.GetProducts` of the current tables |
| `CatalogStore.Store.GetProduct` | be/app/main.py:106-117 | 404 iff the id is not stored; agrees with `Catalog.GetProduct` |
| `CatalogStore.Store.UpdateProductPrice` | be/app/main.py:120-133 | unknown id: 404 and no field changes; otherwise the price is overwritten and one history row is appended iff the price changed; images unchanged; agrees with `Catalog.UpdateProductPrice` |
| `CatalogStore.Store.GetPriceHistory` | be/app/main.py:136-141 | 404 iff no history row carries the id; agrees with `Catalog.GetPriceHistory` |
| `CatalogStore.Store.DeleteProduct` | be/app/main.py:143-151 | 404 iff the id is not stored; the product's key is removed and its image and history rows lose their `product_id`; agrees with `Catalog.DeleteProduct` |

## Left out

- Web plumbing is not modelled: the FastAPI app, the CORS middleware, the `get_db` session lifecycle and `Depends` injection (be/app/main.py:1-28).
- Commits, `refresh` and transactions are not modelled. `create_product` and `update_product_price` each commit twice, so neither is atomic. Concurrent requests are not modelled either.
- Prices are integers, not the `Float` columns and `float` request fields of `main.py`. The code only stores prices and compares them for equality.
- The history `timestamp` is not modelled because it reads the clock. The model claims append order only, since the query has no ORDER BY.
- The row keys the database assigns are modelled as counters that start at 1 and are never reused. The database's own key policy is not modelled.
- `Catalog.GetProducts` returns a set, because the listing query has no ORDER BY. Within one product, images come back in stored order. The ORM relationship load itself promises no order.
- `Catalog.DeleteProduct` follows the ORM's default for a relationship without a delete cascade (be/app/main.py:54-55): the child rows are kept and their `product_id` is set to null. A database that enforces its foreign keys differently is not modelled.
- `Catalog.CreateProduct` and `CatalogStore.Store.CreateProduct` require the id to be new. Reusing a stored id fails the database's primary-key constraint with a server error, which the model does not represent.
- Pydantic response validation is modelled only as the field projection into `ProductView` and `ImageView`.
- `be/app/model.py` and `be/app/Schema.py` only declare tables and schemas; `frontend/src/main.js` only starts the UI. None of them has behaviour to model.
