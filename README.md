# ProductsService: a verified model of the product catalogue service

This project models `ProductsService` of the products microservice
(`src/products/products.service.ts`). The service is a thin layer over the
store's `product` table. It offers six operations:

- `create` inserts a row.
- `findAll` pages through the available rows and reports the total count and the last page.
- `findOne` looks up one available row.
- `update` partially updates a row. It never touches the primary key.
- `remove` soft-deletes a row by setting `available` to false.
- `validateProducts` checks that every id of a batch names an existing row, available or not.

The store becomes an in-memory table: a `seq<Product>` in insertion order, which stands in for the store's default order. A row is
`Product(id, fields)`. `id` is the primary key. `fields` maps every other
column (`name`, `price`, `available`, …) to a `Value`. The soft-delete flag is
the `available` column. The filter `where: { available: true }` is the
predicate `Available`. Failures are the `Error` datatype (`NotFound`, `BadInput`,
`BatchMismatch`). Each error carries the exact message the service builds. All of
them are "bad request" errors in the source, so the status is not a field.

Modules:

- `Decimal` (`decimal.dfy`): decimal rendering of an id, as `${id}` does inside
  the messages, with its parser and the round trip between them.
- `Products` (`products.dfy`): values, rows, errors, messages, the uniqueness
  of ids, lookup by id and the table invariant.
- `Queries` (`queries.dfy`): `findAll`, `findOne` and `validateProducts` as
  functions of the table, with the lemmas about pagination and batch
  validation.
- `Service` (`service.dfy`): `create`, `update` and `remove`, each as a pure
  step function on the table with its lemmas. It also holds the class
  `ProductsService`. The class has a `rows` field (the table) and a `nextId`
  field (the id the store gives the next inserted row). Its `Create`, `Update`
  and `Remove` methods change the table, and each is proved to follow its step
  function. A query on the service is the query function applied to `rows`.

## Model

| member | source | states |
|---|---|---|
| `Decimal.IntToString` | src/products/products.service.ts:53 | `${id}` renders the id as a well-formed decimal numeral, with a leading '-' exactly when the id is negative |
| `Decimal.IntToStringRoundTrip` | src/products/products.service.ts:53 | the decimal text an id is rendered to inside a message reads back as that id |
| `Products.NotFoundMessageNamesId` | src/products/products.service.ts:53 | two not-found messages are equal only for the same id |
| `Products.NotFoundMessage` | src/products/products.service.ts:53 | the message is "Product with id #", then the id's numeral, then " not found"; the text between prefix and suffix reads back as the id |
| `Products.UpdateFailedMessage` | src/products/products.service.ts:85 | the message is the id's not-found message followed by ", update failed" |
| `Products.DeleteFailedMessage` | src/products/products.service.ts:101 | the message is the id's not-found message, then ", delete failed, ", then the store's error message kept verbatim at the end |
| `Products.Find` | src/products/products.service.ts:47-49 | a row with the id is found iff one exists; the position found holds that id and no earlier row does |
| `Products.FindUnique` | src/products/products.service.ts:79 | with unique ids, the lookup by id finds the one row carrying it |
| `Queries.AvailableRows` | src/products/products.service.ts:36 | the filter `available: true` keeps exactly the available rows of the table |
| `Queries.CountAvailable` | src/products/products.service.ts:29 | `count` of the available rows never exceeds the number of rows |
| `Queries.CountAvailableExtremes` | src/products/products.service.ts:29 | the count is 0 exactly when no row is available, and equals the number of rows exactly when every row is |
| `Queries.CountMatchesFilter` | src/products/products.service.ts:29 | the count of available rows equals the number of rows the availability filter returns |
| `Queries.OffsetIsProduct` | src/products/products.service.ts:35 | the rows skipped before page `page` number `(page - 1) * limit` |
| `Queries.LastPage` | src/products/products.service.ts:30 | the last page is the ceiling of total / limit: pages 1 to lastPage hold all rows, pages 1 to lastPage-1 do not, and it is 0 exactly when there are no rows |
| `Queries.LastPageBounds` | src/products/products.service.ts:30 | `(lastPage - 1) * limit < total <= lastPage * limit` when total > 0, and lastPage = 0 when total = 0 |
| `Queries.Skip` | src/products/products.service.ts:35 | `skip: n` leaves the rows after the first `n`, in order: `|s| - n` of them, none when `n >= |s|` |
| `Queries.Take` | src/products/products.service.ts:34 | `take: n` keeps the first `n` rows in order, or all of them when there are no more than `n` |
| `Queries.PageRows` | src/products/products.service.ts:33-37 | a page holds at most `limit` rows, each an available row of the table |
| `Queries.FindAll` | src/products/products.service.ts:26-44 | meta.total is the number of available rows, meta.page is the page asked for, meta.lastPage is the ceiling above; data holds at most `limit` available rows of the table |
| `Queries.FindAllPage` | src/products/products.service.ts:33-37 | the data of page `page` is exactly the available rows from position `(page - 1) * limit`, in table order, `min(limit, total - skip)` of them (none past the end) |
| `Queries.PageNonEmptyIff` | src/products/products.service.ts:29-41 | a page returns rows iff its number is at most meta.lastPage |
| `Queries.PagesCoverAvailable` | src/products/products.service.ts:29-41 | pages 1 to lastPage, concatenated, are exactly the available rows in order: each appears once |
| `Queries.FindOne` | src/products/products.service.ts:46-59 | succeeds iff a row with the id exists and is available, returning that row; otherwise fails with NotFound "Product with id #<id> not found" (so an existing unavailable row also fails) |
| `Queries.Dedup` | src/products/products.service.ts:108 | the deduplicated ids have no repetition and hold exactly the requested ids |
| `Queries.RowsWithIds` | src/products/products.service.ts:110-112 | the batch fetch returns exactly the rows whose id was requested, with no availability filter |
| `Queries.RowsWithIdsCount` | src/products/products.service.ts:110-114 | with unique row ids and distinct requested ids, the fetch returns one row per requested id that exists |
| `Queries.ValidateProducts` | src/products/products.service.ts:107-122 | succeeds iff every requested id names a row, available or not; on success every returned row is a table row with a requested id and every requested id has a returned row; otherwise BatchMismatch "some products not found" |
| `Service.StripId` | src/products/products.service.ts:72 | the payload loses its `id` key and keeps every other key with its value |
| `Service.ApplyPatch` | src/products/products.service.ts:78-81 | a row update keeps the id, gives every payload column its payload value and leaves every other column as it was |
| `Service.UpdateStep` | src/products/products.service.ts:70-91 | a payload with zero keys fails with BadInput "No data to update"; a missing id fails with NotFound "Product with id #<id> not found, update failed"; both leave the table unchanged; otherwise exactly the row with the id gets the payload minus `id` and is returned |
| `Service.UpdateKeepsInvariant` | src/products/products.service.ts:72-81 | update never writes the primary key: every row keeps its id, no row gains an `id` column, ids stay unique |
| `Service.UpdateOnlyIdIsNoOp` | src/products/products.service.ts:72-81 | a payload holding only `id` passes the zero-key check and returns the row unchanged, leaving the table unchanged |
| `Service.UpdateIgnoresAvailability` | src/products/products.service.ts:77-81 | an existing row that is not available is still updated |
| `Service.MarkUnavailable` | src/products/products.service.ts:97 | the soft delete sets the `available` column to `false` (so the row is no longer available) and keeps its id and every other column |
| `Service.RemoveStep` | src/products/products.service.ts:93-105 | on an existing id, exactly that row gets `available` false and is returned with `available` false; on a missing id, the table is unchanged and the error is NotFound "Product with id #<id> not found, delete failed, " followed by the store's message |
| `Service.RemoveKeepsInvariant` | src/products/products.service.ts:93-98 | remove deletes no row and changes no id |
| `Service.RemoveIdempotent` | src/products/products.service.ts:93-98 | removing a second time gives the same answer and the same table as removing once |
| `Service.RemoveHidesRow` | src/products/products.service.ts:93-98 | after a remove, findOne of that id fails with NotFound and no page of findAll holds the row, but validateProducts still finds it |
| `Service.CreateStep` | src/products/products.service.ts:22-24 | create appends exactly one row carrying the next id and the given fields; every earlier row is unchanged |
| `Service.CreateKeepsInvariant` | src/products/products.service.ts:22-24 | create keeps the ids unique and below the next id |
| `Service.CreatedRowIsFound` | src/products/products.service.ts:22-24 | a created row passes validateProducts, and findOne finds it iff it was created available |
| `Service.ProductsService.Create` | src/products/products.service.ts:22-24 | the table becomes the old table plus the new row, and the next id advances by one |
| `Service.ProductsService.Update` | src/products/products.service.ts:70-91 | answer and new table are those of `UpdateStep` on the old table |
| `Service.ProductsService.Remove` | src/products/products.service.ts:93-105 | answer and new table are those of `RemoveStep` on the old table |

## Left out

- `onModuleInit`, `$connect` and the `Logger` (src/products/products.service.ts:16-21): connection set-up and logging, which are I/O.
- `async`/`await` and concurrent requests. Every operation is one atomic step on the table. The model therefore cannot show the gap between `count` and `findMany` in `findAll`, where a concurrent write could make `total` disagree with `data`.
- Store failures other than a missing row: a failing `create`, and the non-`P2025` errors that `update` rethrows unchanged. The in-memory table cannot fail in those ways. For `remove`, which wraps every error, only the missing-row error is modelled, and its message is the parameter `cause`.
- How a row is physically ordered in the store. The table uses insertion order for the store's default order, which Prisma does not promise.
- The validation done by request DTOs. `findAll` requires `page >= 1` and `limit >= 1`. `create` requires a payload without an `id` key. Column values are not type-checked.
- Defaults from the database schema. The schema is not part of this model. `create` stores its payload verbatim, so a row created without an `available` column is not available. Store-generated ids are modelled as an autoincrement counter (`nextId`).
- The status `HttpStatus.BAD_REQUEST` and the exception classes `RpcException` and `BadRequestException`. Every error of the service has that one status, so `Error` carries only the kind and the message.
- Number representation. Ids, prices, `page` and `limit` are unbounded integers. `Math.ceil(total / limit)` is taken as the exact integer ceiling, which is what it computes for integers JavaScript can represent exactly.
- The order of the ids after deduplication does not affect the result: the fetched rows come back in table order, as `findMany` returns them.
