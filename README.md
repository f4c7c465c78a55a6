# Inventory store

A model of the data layer behind a small inventory web application. The
request handlers of `views.py` read and change two tables declared in
`models.py`:

- `product`: rows of (id, name, price, quantity, location). Every column is
  NOT NULL. The location is a plain string.
- `product_movement`: an append-only ledger of (id, timestamp,
  from_location, to_location, product_id, qty). Both locations may be
  absent. `product_id` is declared a foreign key to `product.id`.

The model keeps both tables as sequences in one `Inventory` object, together
with one id counter per table, and gives each handler one method:

- `AddProduct` is an upsert on the key (name, price, location). It adds to
  the quantity of the first matching row, or it inserts a new row.
- `ShiftProduct` relocates a product and logs one movement.
- `AddMovement` appends a free-form ledger entry.
- `DeleteProduct` deletes the product's movements and then the product.
- `ViewMovement`, `Index` and `ProductReport` only read.

The store invariant `Models.TablesConsistent` has three parts:

- both primary keys are distinct;
- every id is below its table's counter, so a new row gets a fresh id;
- every movement refers to an existing product.

Every state-changing handler preserves it. Each preservation proof is a
lemma over plain sequence values, and the method calls that lemma.

The record types encode nullability. `Product` has no optional field.
`Movement` has `Option<string>` locations, while its product id and
quantity are always present. Prices are only compared for equality, as
part of the merge key, so they are integers here. Timestamps are integers
supplied by the caller (`now`).

The merge key (name, price, location) stays unique across additions
(`AddProduct`'s last postcondition). It is not a store invariant, though:
shifting a product onto the location of a row with the same name and price
produces two rows with one key. `Scenarios.ShiftCanDuplicateKey` walks
through this case. After it, an addition with that key merges into the
first of the two rows.

`Scenarios.ChennaiScenario` adds a widget in Chennai, adds it again (the
rows merge), shifts it to Coimbatore, then deletes the product. The merge
step in general form is `Scenarios.AddTwiceAccumulates`.

Facts about the code that shape the model:

- Locations are plain strings; there is no location table. `location_bp`
  is declared but has no routes, so nothing adds, renames or deletes a
  location.
- No handler checks that a price or quantity is non-negative.
- `add_movement` does not check that the product exists. The model makes
  this a precondition, because the foreign key demands it.
- Movements are listed by timestamp only. The query sets no tie-break.

## Model

| member | source | states |
|---|---|---|
| `Models.LocationsAreSixDistinctNames` | models.py:7-14 | the default location list has six entries, pairwise distinct |
| `Views.FindProduct` | views.py:59 | finds the first row whose primary key is `id`; reports absence exactly when `id` is not among the table's ids |
| `Views.FindByKey` | views.py:36-40 | finds the first row whose name, price and location all equal the given ones; reports absence exactly when no row matches |
| `Views.FormLocation` | views.py:89-90 | a missing or empty location field becomes an absent location; any other field is kept as given |
| `Views.WithoutMovementsOf` | views.py:118 | a movement survives the filter exactly when it was in the ledger and does not refer to the deleted product |
| `Views.WithoutMovementsOfCounts` | views.py:118 | every surviving movement keeps its number of occurrences; the deleted product's movements all go |
| `Views.InsertNewestFirst` | views.py:109 | inserting into a newest-first list gives a newest-first list with one more element |
| `Views.NoNewerThan` | views.py:109 | a list holding only elements no newer than a bound holds nothing newer than it, whatever their order |
| `Views.SortNewestFirst` | views.py:109 | the result is a permutation of the movements whose timestamps never increase along the list |
| `Views.Positions` | views.py:133-142 | a product's position is in the group of `loc` exactly when the product is at `loc`, so each product is in exactly one group; positions ascend, so table order is kept |
| `Views.GroupFollowsPositions` | views.py:135-142 | entry k of a location's group is the (name, quantity, price) of the k-th product at that location |
| `Views.GroupOfUnusedLocation` | views.py:140-141 | a location no product uses has no entries |
| `Views.Inventory.constructor` | app.py:19-20 | the freshly created database has empty tables and satisfies the invariant |
| `Views.Inventory.AddProduct` | views.py:28-52 | if a row matches the key, only that row's quantity grows by the given amount; otherwise exactly one row with a fresh id is appended; movements never change; key uniqueness is preserved |
| `Views.Inventory.ShiftProduct` | views.py:58-78 | an absent id gives NotFound and changes nothing; otherwise only the location of that row changes, and exactly one movement is appended (from the old location to the new one, with the row's quantity and id) |
| `Views.Inventory.AddMovement` | views.py:84-102 | appends exactly one movement with a fresh id, the given product and quantity, and normalised locations; the product table is untouched |
| `Views.Inventory.DeleteProduct` | views.py:114-124 | an absent id gives NotFound, a failed commit gives StorageError, and both leave the store unchanged; otherwise exactly that row and exactly its movements are removed, and afterwards no movement refers to the id |
| `Views.Inventory.ViewMovement` | views.py:108-110 | the listing is a permutation of all movements, newest first |
| `Views.Inventory.Index` | views.py:11-24 | one entry per product, in order; entry k has display index k+1, the product's fields, and "N/A" for an empty location |
| `Views.Inventory.ProductReport` | views.py:130-144 | the report's keys are exactly the locations in use, and each key maps to the entries of the products at that location in table order |
| `Views.ReplaceRowKeepsIds` | models.py:17 | replacing a row by one with the same id keeps the set of ids and their distinctness |
| `Views.MergeKeepsTables` | views.py:42-45 | the merge step keeps the store invariant and keeps the merge keys unique |
| `Views.InsertKeepsTables` | views.py:46-50 | the next product id is fresh; the insert keeps the store invariant, and keeps the keys unique when no row had the new key |
| `Views.ShiftKeepsTables` | views.py:62-76 | the shift keeps the store invariant: same ids, and a fresh movement id pointing at an existing product |
| `Views.LogKeepsTables` | views.py:93-101 | appending a movement with a fresh id that refers to an existing product keeps the store invariant |
| `Views.FilterKeepsIdsDistinct` | views.py:118 | the cascade filter keeps movement ids distinct |
| `Views.RemoveRowIds` | views.py:119 | removing one row keeps ids distinct and leaves exactly the other rows' ids |
| `Views.DeleteKeepsTables` | views.py:118-119 | the cascade keeps the store invariant (no dangling product reference remains), and the deleted id is gone |
| `Scenarios.AddTwiceAccumulates` | views.py:36-50 | adding one new key twice yields one new row holding the sum of both quantities |

## Left out

- HTTP routing, template rendering, redirects and the GET branches: they are presentation only.
- Session mechanics (add, commit, rollback, query building): the tables are state, and a missing id is a `NotFound` outcome.
- `ShiftProduct` is one atomic step. The source commits twice. After the first commit the product is relocated but no movement is logged yet. The model does not show that intermediate state or a failure between the two commits.
- Commit failures in `add_product`, `shift_product` and `add_movement` are not modelled: there the source has no handler for them. Only `delete_product` catches failures, and its `commitSucceeds` parameter stands for the storage layer's answer.
- Parsing of form fields with `float()` and `int()`, and fields missing from the form, are not modelled. For example, a missing `new_location` would violate the NOT NULL column. Prices are integers compared for equality, not floating-point values.
- Clock reads become the `now` parameter. The source stamps `add_movement` rows with local time and shift movements with UTC, so its newest-first order mixes two clocks. The model does not distinguish them.
- Id allocation is a counter that never reuses an id. A database may reuse the largest id after a deletion.
- The foreign key is a precondition of `AddMovement`. The database behind the source does not enforce it by default.
- Column length limits (`String(100)`) and the storage engine's integer width are not modelled: quantities are unbounded integers.
- `Query.all()` returns rows without an ORDER BY. The model takes insertion order.
- The `product` relationship and its `movements` backref are navigation helpers. Only `productId` is modelled.
- Views.WithoutMovementsOf: states which movements remain and how often, not that the remaining rows keep their relative order (the ledger's order is only ever observed through the timestamp sort).
- Views.SortNewestFirst: promises nothing about the order of movements with equal timestamps, as the query does not.
- Views.Inventory.ProductReport: the order of the groups is not modelled. The source's dictionary yields locations in the order each first appears, and the report is drawn in that order; a Dafny `map` has no order. The order inside each group is modelled.
- app.py's configuration and server start-up: I/O plumbing with no logic.
