# Product catalogue service — a Dafny model

This project models the core of a product catalogue microservice: the `ProductsService`
that creates, lists, finds, updates and soft-deletes products, and the `PaginationDto`
that turns an optional `page`/`limit` request into a row offset and page metadata.

A product row is `{id, name, price, available}`. `available` is the only liveness flag.
Every read filters on it. `remove` clears it instead of deleting the row, and nothing sets
it back. `findOne` is the not-found gate ("Product not found"), and `update` and `remove`
pass through it before they write.

Files:

- `wrappers.dfy`: `Option` and `Result`.
- `pagination.dfy` (module `Pagination`): the DTO's defaults and positivity checks
  (`Resolve`), `Skip`, `LastPage` (ceiling division), the skip/take window a store applies
  to a listing, and lemmas about them. It is pure: functions and lemmas.
- `catalogue.dfy` (module `Catalogue`): the product table as a value (`Table`: rows keyed
  by id plus the next id). It has the effect of each operation as a function (`Find`,
  `Create`, `Update`, `Remove`), the available-row listing in id order, and lemmas. Some
  lemmas cover one operation. Others cover any sequence of operations (`Run`): soft delete
  is one-way, rows are never lost, ids are never reused, removal is permanent.
- `store.dfy` (module `ProductStore`): class `Store`, an in-memory table with a `map<int,
  Product>` and an id counter. It replaces the database client and offers the calls the
  service makes: count and scan of available rows, point lookup of an available row, insert
  and update.
- `service.dfy` (module `ProductsService`): class `ProductsService`, holding a `Store`. Its
  methods `Create`, `Update` and `Remove` modify the store; `FindAll` and `FindOne` only
  read it. Each method's postcondition ties the new store state to the `Catalogue` function for that
  operation and states the property directly. The module also holds a worked scenario.

Assumptions of the model store (the database schema is not part of this model): ids are
assigned from 1 upwards by an auto-increment counter, and a new row has `available = true`.
A scan without an explicit order returns rows in ascending id order.

## Model

| member | source | states |
|---|---|---|
| Pagination.Resolve | src/common/dto/pagination.dto.ts:4-13 | an absent `page` becomes 1 and an absent `limit` becomes 10; a present value must be positive. The request is accepted exactly when no present field is non-positive, and the rejection names each offending field |
| Pagination.DefaultsGiveFirstPage | src/common/dto/pagination.dto.ts:8-20 | a request with neither field is page 1 of 10 rows, and its skip is 0 |
| Pagination.SkipProperties | src/common/dto/pagination.dto.ts:18-20 | for positive page and limit, `skip` is non-negative and a multiple of `limit`; page 1 has skip 0; the next page's skip is this skip plus `limit` |
| Pagination.Skip | src/common/dto/pagination.dto.ts:18-20 | the offset of a page: `(page - 1) * limit` rows come before it (its properties are in `SkipProperties`) |
| Pagination.ConsecutivePagesAdjacent | src/common/dto/pagination.dto.ts:18-20 | the windows of page p and page p+1 are adjacent and disjoint: concatenated, they are the single window of 2*limit rows starting at page p's skip |
| Pagination.LastPage | src/products/products.service.ts:36-38 | `lastPage = ceil(total / limit)`: the least count of `limit`-row pages that holds `total` rows (`lastPage*limit >= total`, and one page fewer would not) |
| Pagination.NoRowsNoPages | src/products/products.service.ts:36-38 | `total = 0` gives `lastPage = 0` |
| Pagination.PageHasRowsIffAtMostLastPage | src/products/products.service.ts:36-45 | a page starts before the end of the rows exactly when its number is at most `lastPage` |
| Pagination.WindowBounds | src/products/products.service.ts:39-45 | a skip/take window holds at most `take` rows, all from the listing, and is empty exactly when `skip` is at or past the end (or `take` is 0) |
| Pagination.PagesArePrefix | src/products/products.service.ts:39-45 | pages 1..n of one unchanged listing, read one after another, are exactly its first `n*limit` rows |
| Pagination.PagesCoverListing | src/products/products.service.ts:36-45 | pages 1..lastPage of one unchanged listing, read one after another, return each of its rows exactly once, in order |
| Catalogue.Listing | src/products/products.service.ts:39-45 | the scan of the available rows, in the ascending id order the model store assumes (its properties are in `ListingIsAvailableRows`) |
| Catalogue.Find | src/products/products.service.ts:53-63 | the `findOne` gate as a function of the table: the row under `id` when it is available, NotFound "Product not found" otherwise |
| Catalogue.Create | src/products/products.service.ts:21-27 | the effect of `create` on the table (its properties are in `CreateAddsOneRow`) |
| Catalogue.Update | src/products/products.service.ts:66-76 | the effect of `update` on the table: the gate, then a write of `name` and `price` (its properties are in `UpdateWritesOnlyNameAndPrice`) |
| Catalogue.Remove | src/products/products.service.ts:79-95 | the effect of `remove` on the table: the gate, then `available := false` (its properties are in `RemoveIsSoftDelete`) |
| Catalogue.ListingIsAvailableRows | src/products/products.service.ts:31-45 | the scan holds every available row once and nothing else, in ascending id order, and its length is the count `findAll` reports as `total` |
| Catalogue.CreateAddsOneRow | src/products/products.service.ts:21-27 | `create` adds exactly one row, under an id not used before. The row has the given name and price and `available = true`; every other row is unchanged, and `findOne` of the new id returns it |
| Catalogue.UpdateWritesOnlyNameAndPrice | src/products/products.service.ts:66-76 | `update` fails with NotFound and changes nothing exactly when the gate fails. Otherwise it writes only the given `name` and `price`, keeps `id` and `available`, and changes no other row |
| Catalogue.RemoveIsSoftDelete | src/products/products.service.ts:79-95 | `remove` fails with NotFound and changes nothing exactly when the gate fails. Otherwise it keeps the row, sets only `available = false`, and returns the row so changed |
| Catalogue.ApplyKeepsValid | src/products/products.service.ts:21-95 | every operation keeps each row stored under its own id, with ids below the counter |
| Catalogue.RowsAreNeverLost | src/products/products.service.ts:79-95 | across any sequence of operations no row is physically deleted, no row changes its id, and the id counter never goes back, so ids are never reused |
| Catalogue.SoftDeleteIsOneWay | src/products/products.service.ts:66-95 | once a row is unavailable, any sequence of operations leaves it present and unavailable (no Unavailable to Available transition) |
| Catalogue.RemovalIsPermanent | src/products/products.service.ts:53-95 | after a successful `remove(id)`, followed by any operations, `findOne(id)`, `update(id, ...)` and `remove(id)` all fail with NotFound "Product not found" and change nothing |
| ProductStore.Store.Count | src/products/products.service.ts:31-35 | the count of rows with `available = true`, equal to the length of a full scan |
| ProductStore.Store.FindMany | src/products/products.service.ts:39-45 | the skip/take window of the available rows in id order: at most `take` rows, each available and as stored |
| ProductStore.Store.FindUnique | src/products/products.service.ts:54-59 | the lookup filtered on `{id, available: true}`: a row exactly when one with that id exists and is available, and then that row |
| ProductStore.Store.Insert | src/products/products.service.ts:22-27 | a new available row with the given name and price under the next id; the counter advances |
| ProductStore.Store.Update | src/products/products.service.ts:68-95 | overwrites only the given columns of the row under `id` and returns it; fails without change when there is no such row |
| ProductsService.ProductsService.Create | src/products/products.service.ts:21-28 | returns a new available product with the given name and price under a fresh id; all existing rows are unchanged |
| ProductsService.ProductsService.FindAll | src/products/products.service.ts:30-51 | leaves the store unchanged. `total` is the number of available rows and `lastPage = ceil(total/limit)` (0 when `total` is 0). The data are at most `limit` available rows, taken in id order from row `skip` on, and are empty exactly when `skip >= total` |
| ProductsService.ProductsService.FindOne | src/products/products.service.ts:53-64 | returns the stored product exactly when it exists and is available; otherwise NotFound "Product not found"; the store is unchanged |
| ProductsService.ProductsService.Update | src/products/products.service.ts:66-77 | a missing or unavailable id gives NotFound and no change. Otherwise only that row's `name` and `price` are written (each only when given), and the updated row is returned |
| ProductsService.ProductsService.Remove | src/products/products.service.ts:79-96 | a missing or unavailable id gives NotFound and no change. Otherwise the row stays with only `available` set to false, and is returned that way |
| ProductsService.ThreeProductsOneRemoved | src/products/products.service.ts:30-64 | three products created and the third removed: page 1 of 10 lists products 1 and 2, `total` is 2, `lastPage` is 1, and product 3 is not found |

## Left out

- `validateProducts`: the controller calls it (src/products/products.controller.ts:50),
  but the service file has no implementation of it. Its deduplication and all-or-nothing
  check are not part of this model.
- The database client, its connection in `onModuleInit`, and the logger
  (src/products/products.service.ts:13-19) are replaced by the in-memory `Store`. Store and
  connection failures are not modelled.
- The controller's message routing and `ParseIntPipe` coercion
  (src/products/products.controller.ts), and the environment configuration
  (src/config/envs.ts), are transport and I/O. They are not part of this model.
- The `id > 0` validation of `UpdateProductDto` is not a precondition of `Update`. The
  service accepts any id, and a non-positive id is simply not found.
- Timestamps (`createdAt`, `updatedAt`) are not modelled. `price` is an integer, not a
  JavaScript number.
- Pagination.Resolve: `page` and `limit` are integers here. Fractional numbers, `null`
  values (which the optional-field validator lets through), and the exact wording of the
  validator's messages are not modelled; a rejection carries only the field names.
- Pagination.Skip: computed exactly on unbounded integers. The source computes
  `(page - 1) * limit` in JavaScript doubles, which is exact only while the product is
  below 2^53.
- Pagination.PagesCoverListing: the exactly-once coverage (and `PagesArePrefix`) is about
  one fixed listing. In the service every page is a separate `findAll` call. The coverage
  needs two things the source does not guarantee: no write between the page requests, and
  the same row order from every query (the source gives no ordering).
- Pagination.LastPage: `Math.ceil` of a floating-point quotient is modelled as integer
  ceiling division. The two agree for totals below 2^53. `limit > 0` is a precondition,
  because the service does not guard against `limit = 0`.
- ProductsService.ProductsService.FindAll: the source assigns `total` and `lastPage` on
  the request object it was given and returns that object as `meta`. The model returns a
  fresh `Meta` value with the same four fields. The scan order is fixed to ascending id,
  because the source gives no ordering. Count and scan are one atomic step here, so the
  race between them under concurrent requests is not modelled.
- ProductsService.ProductsService.Update: each service operation is modelled as one atomic
  step. In the source the gate (`findOne`) and the write are two separate awaited calls
  (src/products/products.service.ts:67-68), so a concurrent `remove` between them is not
  captured: `update` could then write `name`/`price` to a row just soft-deleted. The
  "fails exactly when the gate fails" contract holds for calls made one after another.
- ProductsService.ProductsService.Remove: modelled as one atomic step, like `Update`. The
  gap between the gate and the write (src/products/products.service.ts:80-88) is not
  captured, so two concurrent removes of one id could both succeed in the source. The
  "a second `remove` fails" property holds for calls made one after another.
- ProductStore.Store.Update: a database update of a missing row throws. Here it returns
  `None`, which the service never reaches because the gate runs first.
- The commented-out hard delete (src/products/products.service.ts:81-86) is not modelled.
