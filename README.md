# Product-tag associations of the e-commerce back end

This is a model of the only computation in the product routes of the
e-commerce back end: how the product-tag join table (`ProductTag`) is kept in
line with the `tagIds` list that a request sends.

- **Create** (`POST /api/products`): once the product row exists, a non-empty
  `tagIds` list becomes one `{product_id, tag_id}` object per element, in
  order. These objects are bulk-created. An empty list creates no rows. A
  missing list makes `.length` throw, and the handler answers 400.
- **Update** (`PUT /api/products/:id`): the handler reads the product's stored
  join rows, each with a row `id` and a `tag_id`. It then computes two lists:
  - the `{product_id, tag_id}` objects to create, one for every requested tag
    that is not yet stored, in request order, with duplicates kept;
  - the ids of the stored rows to destroy, one for every stored row whose tag
    is no longer requested, in row order.

Everything lives in one module, `ProductRoutes`, in `product_routes.dfy`. Both
computations are pure functions over sequences: `CreateAssociations` for the
create handler, and `Reconcile` with its building blocks (`TagIdsOf`,
`NewTagIds`, `RemovedIds`, `PairsFor`) for the update handler. The store is
modelled by what the two store calls leave behind once both succeed.
`Kept` models the destroy by id, `Created` the bulk create, and `Applied` both
together. The ids the store assigns to created rows are a parameter. The
lemmas state how the two lists relate to the stored rows and the request:
- the tag-id set after the update equals the requested set;
- the multiplicity of each tag after the update is stated exactly;
- the insert and remove lists never touch the same tag;
- both lists are empty exactly when the stored set already equals the request,
  so a second identical update does nothing;
- the empty-request and empty-store edge cases behave as described above;
- create agrees with an update of a product that has no tags yet.

Ids are unbounded integers. The "stored rows have distinct ids" assumption is
the join table's primary key. It is stated as `DistinctIds` wherever a
property needs it, and `SharedRowIdLosesTag` shows that the set equality fails
without it.

## Model

| member | source | states |
|---|---|---|
| `ProductRoutes.TagIdsOf` | routes/api/product-routes.js:93 | the current tag-id list has one entry per stored row, holding that row's `tag_id`, in row order |
| `ProductRoutes.PairsFor` | routes/api/product-routes.js:97-102 | one `{product_id, tag_id}` object per tag id, in order, every one carrying the given product id |
| `ProductRoutes.NewTagIds` | routes/api/product-routes.js:95-96 | a tag id is in the insert list if and only if it is requested and not among the stored tag ids |
| `ProductRoutes.NewTagIdsCounts` | routes/api/product-routes.js:95-96 | each requested tag that is not stored appears in the insert list exactly as often as in the request (duplicates kept); a stored tag never appears |
| `ProductRoutes.NewTagIdsAppend` | routes/api/product-routes.js:95-96 | filtering a concatenated request is filtering each part and concatenating, so the insert list keeps request order |
| `ProductRoutes.RemovedIds` | routes/api/product-routes.js:104-106 | an id is in the remove list if and only if some stored row with that id has a tag that is not requested; the list is no longer than the rows |
| `ProductRoutes.RemovedIdsAppend` | routes/api/product-routes.js:104-106 | the remove list of concatenated rows is the concatenation of the parts' remove lists, so it keeps row order |
| `ProductRoutes.Reconcile` | routes/api/product-routes.js:91-106 | every object to insert carries the product id and a requested tag not yet stored, and every requested tag not yet stored has such an object; an id is removed only if some stored row with that id has an unrequested tag, and every row with an unrequested tag is removed; with distinct row ids no row with a requested tag is removed; no inserted tag equals the tag of a removed row |
| `ProductRoutes.UpdateTags` | routes/api/product-routes.js:95-118 | a body without `tagIds` gives no plan (the handler answers 400); otherwise the plan is the reconciliation of the stored rows with the list |
| `ProductRoutes.CreateAssociations` | routes/api/product-routes.js:63-73 | a missing list is an error; an empty list gives the product alone; a non-empty list gives one `{product_id: newId, tag_id: t}` per element, in order |
| `ProductRoutes.Kept` | routes/api/product-routes.js:110 | the rows left after the destroy are exactly the stored rows whose id is not listed |
| `ProductRoutes.Created` | routes/api/product-routes.js:111 | one stored row per inserted object, in order, with the store-assigned id and the object's tag |
| `ProductRoutes.Applied` | routes/api/product-routes.js:109-112 | the product's rows after both store calls succeed: a row is present exactly when it is a stored row whose id was not destroyed or a created row; the tag ids are the kept rows' tags followed by the inserted tags |
| `ProductRoutes.KeptIsRowsTaggedIn` | routes/api/product-routes.js:104-110 | when a row's id is listed exactly when its tag is unrequested, the destroy leaves exactly the rows with requested tags, in order |
| `ProductRoutes.ReconciledTagCounts` | routes/api/product-routes.js:93-111 | after destroy and create, an unrequested tag occurs zero times, a requested stored tag as often as it was stored, and a requested new tag as often as it was requested |
| `ProductRoutes.ReconciledTagSet` | routes/api/product-routes.js:93-111 | after destroy and create, the set of the product's tag ids equals the set of requested tag ids |
| `ProductRoutes.NoDuplicatesIntroduced` | routes/api/product-routes.js:95-111 | if neither the stored tags nor the request hold a duplicate, then no tag occurs twice after the update |
| `ProductRoutes.RepeatedNewTagInsertedTwice` | routes/api/product-routes.js:95-102 | a new tag requested twice gets two insert objects |
| `ProductRoutes.SharedRowIdLosesTag` | routes/api/product-routes.js:104-110 | two stored rows sharing an id: destroying the unrequested one also drops the requested one |
| `ProductRoutes.NoOperationsIffInSync` | routes/api/product-routes.js:95-106 | both lists are empty if and only if the stored tag-id set equals the requested set |
| `ProductRoutes.ReconcileTwiceIsQuiet` | routes/api/product-routes.js:93-111 | reconciling the updated rows again with the same request yields no operations |
| `ProductRoutes.EmptyRequest` | routes/api/product-routes.js:95-106 | an empty request inserts nothing and removes the id of every stored row, in order |
| `ProductRoutes.EmptyCurrent` | routes/api/product-routes.js:95-106 | with no stored rows nothing is removed, and the insert list is one object per requested tag, in order |
| `ProductRoutes.CreateMatchesUpdateFromNothing` | routes/api/product-routes.js:63-66 | for a non-empty list, the rows created with a new product are the ones an update of a tagless product would insert |
| `ProductRoutes.ExampleUpdate` | routes/api/product-routes.js:93-106 | rows {1: tag 10, 2: tag 20} against request [20, 30] destroy row 1 and create tag 30 |

## Left out

- HTTP routing, request parsing, status codes and JSON responses of all routes are not modelled. The only response detail kept is which outcome the create and update handlers reach.
- The Sequelize calls (`findAll`, `findByPk`, `create`, `update`, `destroy`, `bulkCreate`) are foreign code. The stored rows are an input. The ids the store assigns are a parameter. Destroy and bulk create are modelled only by the rows they leave.
- The update handler sends the destroy and the bulk create together through `Promise.all`, with no transaction. That is a concurrency concern. `Applied` models only the state after both have succeeded; a partial failure is not modelled.
- `UpdateTags`, `CreateAssociations`: the product row is created or updated before `tagIds` is read. That write, which stays in place when `tagIds` is missing, is not modelled.
- Ids are integers. In the update handler `req.params.id` is a string. `includes` compares with SameValueZero, which never equates a string with a number, so a string tag id never matches a numeric one. A `tagIds` value that is not an array is also not modelled.
- The category and tag routes, and the schema declarations in `models/index.js`, are pass-throughs to the store. They are not part of this model. This includes the cascade deletes, which the database enforces.
- Uniqueness of (product, tag) join rows is not enforced by the schema, so stored duplicates can exist. The model keeps them. `ReconciledTagCounts` states how they survive an update. `RepeatedNewTagInsertedTwice` shows that a repeated new tag in the request is inserted twice, as the code does.
