# Product importer: a verified model of the CSV import core

This project models the core of a small product-catalogue web service written
in Python (FastAPI, pandas, SQLAlchemy over SQLite). A user uploads a CSV file of
products. A background worker imports the rows into the `products` table in
slices of 5000 and deduplicates them by SKU. The worker publishes progress
records into a process-wide `progress_store` dictionary and honours a
`cancel_flags` dictionary between slices. Besides the importer, the service
offers single-row product operations, a paginated listing, and an in-memory
webhook registry.

The model has these modules:

- `Wrappers` / `Http` (`wrappers.dfy`): Option, Result and the HTTP errors the routes raise.
- `Text` (`text.dfy`): the string operations the core relies on. `lower()` is
  ASCII-only. That matches SQLite's `LOWER` and `LIKE`, but not Python's
  `str.lower()` on letters outside ASCII (see "Left out"). `strip()` uses
  Python's whitespace set. `endswith` and a case-insensitive substring test
  are here too.
- `Registry` (`registry.dfy`): the `progress_store`/`cancel_flags` pair as the
  class `TaskRegistry`, the progress records the system writes, the status
  classifier of `GET /task/{id}`, upload admission, cancellation, and one
  eviction step of the progress stream.
- `Catalog` (`catalog.dfy`): the products table as the class `ProductTable`
  over a sequence of rows. Ids are SQLite rowids, the largest id plus one. The
  module also holds create, update, delete, delete all, the `SELECT LOWER(sku)`
  query and the paginated listing.
- `Staging` (`preprocess.dfy`): `_preprocess_dataframe` and the per-row rule of
  `_process_batches`, as functions over sequences of rows.
- `Import` (`import.dfy`): `_process_batches` as a method with a loop, proved
  against three independent definitions: where the loop stops (`HaltFrom`),
  what staging the rows walked gives (`Stage`) and which progress records the
  written slices publish (`TrailFrom`); then `import_products_from_csv`.
- `Webhooks` (`webhooks.dfy`): the module-level webhook list and counter as the
  class `WebhookRegistry`, with create, update, delete, list, and the lookup
  part of the test route.

Where the documented behaviour of the service and its code disagree, the model
follows the code:

- **SKU collisions.** Deduplication runs on the raw SKU, keeping the last row,
  and only then are SKUs stripped and lower-cased. So two rows whose SKUs differ
  only in case or surrounding whitespace both survive preprocessing. The slice
  loop then keeps the *first* of them, not the last
  (`NormalizedCollisionKeepsFirst`).
- **Cleaning first is not the same as importing raw.** Cleaning a file's SKUs
  before import changes which of the colliding rows is imported
  (`CleaningFirstChangesWinner`).
- **Cancellation is not a terminal outcome of its own.** After the loop stops
  for a cancel, `import_products_from_csv` overwrites the cancelled record with
  the "Completed!" record.
- **A success reports a total of 0.** No writer sets a `total` key, so a
  successful task reports a total of 0 (`ClassifyWrittenRecords`).
- **Progress and the reported total use different row counts.** The progress
  percentage is computed over the row count after deduplication. The
  `total_processed` result is the count before it.
- **`update_product` with an empty SKU.** The service skips its uniqueness
  check for an empty SKU. The write then fails at commit on the UNIQUE
  constraint when another row already has the empty SKU.

## Model

| member | source | states |
|---|---|---|
| Text.Lower | app/services/product_service.py:117 | `lower()` keeps the length and every character that is not an upper-case letter, turns each upper-case letter into its own lower-case letter, and so is the identity on lower-case text |
| Text.Strip | app/services/product_service.py:117 | `strip()` returns a contiguous piece of its input that neither starts nor ends with whitespace, and everything cut away before and after it is whitespace |
| Text.NormalizeIdempotent | app/services/product_service.py:117 | stripping and lower-casing an already normalized SKU changes nothing |
| Text.NormalizeIsNormalized | app/services/product_service.py:117 | a normalized SKU is lower-case and has no surrounding whitespace |
| Staging.DropDuplicates | app/services/product_service.py:116 | `drop_duplicates(subset=['sku'], keep='last')` never adds rows; what it keeps is stated by `DropDuplicatesKeepsLast` and `DropDuplicatesSkus` |
| Staging.DropDuplicatesKeepsLast | app/services/product_service.py:116 | `drop_duplicates(keep='last')` keeps exactly the rows that are the last occurrence of their raw SKU, in file order |
| Staging.DropDuplicatesSkus | app/services/product_service.py:116 | after deduplication every raw SKU of the file is still present, and only once |
| Staging.DropDuplicatesDistinct | app/services/product_service.py:116 | a file whose raw SKUs are pairwise distinct passes deduplication unchanged |
| Staging.Preprocess | app/services/product_service.py:105-118 | preprocessing never adds rows; what it keeps and how it rewrites the SKU is stated by `PreprocessSpec` |
| Staging.PreprocessSpec | app/services/product_service.py:105-118 | preprocessing keeps one row per raw SKU (the last), in order, with that row's SKU normalized and its other fields untouched |
| Staging.Stage | app/services/product_service.py:176-186 | the per-row rule of a slice: the SKU set only grows and at most one row is staged per row read; `StageKeepsFirst` says which |
| Staging.StageFresh | app/services/product_service.py:176-186 | the rows the loop stages have lower-case SKUs that are new against the existing set and pairwise distinct |
| Staging.StageKeepsFirst | app/services/product_service.py:176-186 | a row is staged exactly when its lower-cased SKU is not yet stored and no earlier row had it; staged rows keep file order |
| Staging.StageSeen | app/services/product_service.py:178-185 | the SKU set grows by every row's lower-cased SKU, which is the same as growing it by the staged SKUs |
| Staging.StageNothingNew | app/services/product_service.py:178 | rows whose SKUs are all already present stage nothing |
| Staging.StagePrefix | app/services/product_service.py:160-186 | staging a prefix of the rows stages a prefix of what staging all of them stages |
| Staging.StageConcat | app/services/product_service.py:160-186 | staging slice by slice with the set carried over equals staging all rows at once, so the slice size does not change what is imported |
| Catalog.ProductTable.constructor | app/models/database.py:34-41 | a fresh `products` table is empty and well formed |
| Catalog.MaxId | app/models/database.py:36 | `max(rowid)`: no stored id exceeds it, and it is 0 for an empty table |
| Catalog.MaxIdAttained | app/models/database.py:36 | the next rowid comes from the largest id actually present |
| Catalog.NextId | app/models/database.py:36 | the rowid of the next row is positive and larger than every stored id |
| Catalog.Inserted | app/services/product_service.py:281-288 | one INSERT keeps every stored row and appends the new row with its fields and a fresh id |
| Catalog.ExistingSkus | app/services/product_service.py:121-132 | `SELECT LOWER(sku)` holds every stored SKU lower-cased, and in a table of lower-case SKUs exactly the stored SKUs |
| Catalog.FindProduct | app/services/product_service.py:315-317 | the lookup by id finds the first row with the id, or reports that no row has it |
| Catalog.InsertedWellFormed | app/services/product_service.py:281-288 | inserting a lower-case SKU that is not stored keeps ids increasing and SKUs unique and lower-case |
| Catalog.CreateProduct | app/services/product_service.py:256-290 | refused with "already exists" exactly when a stored SKU equals the new one ignoring case; otherwise exactly one row is appended with the SKU lower-cased and an id larger than all others; the table stays well formed |
| Catalog.Patched | app/services/product_service.py:328-336 | each given field replaces the stored one, a given SKU lower-cased; the id never changes |
| Catalog.UpdateProduct | app/services/product_service.py:293-340 | unknown id: `None` and no change; "already exists" exactly when a non-empty, changed SKU is taken by another row ignoring case; an IntegrityError exactly when the new SKU is empty and another row already stores the empty SKU; otherwise only that row changes, to the patched row, and the table stays well formed |
| Catalog.ReplacedWellFormed | app/services/product_service.py:319-338 | replacing a row by one with the same id and a SKU no other row has keeps the table well formed |
| Catalog.DeleteProduct | app/services/product_service.py:343-360 | returns true exactly when a row has the id; that row alone is removed and the others keep their order |
| Catalog.RemovedWellFormed | app/services/product_service.py:358-359 | removing one row keeps the table well formed and removes only the rows with that row's id |
| Catalog.DeleteAllProducts | app/services/product_service.py:363-377 | answers the number of rows there were and leaves an empty table |
| Catalog.TotalPages | app/services/product_service.py:252 | the page count is the least number of pages of `per_page` rows that holds every row |
| Catalog.PageSlice | app/services/product_service.py:245 | a page holds `per_page` rows, or the rows left after its offset when fewer remain, or none past the end: the matching rows from the page's offset on, in order, with a negative offset counting as 0 |
| Catalog.NonPositivePageIsFirst | app/services/product_service.py:245 | a page number of 1 or less is served the first page |
| Catalog.PagesCoverAll | app/services/product_service.py:245-252 | every row lies on an existing page, at the position its index gives |
| Catalog.ActiveFilter | app/services/product_service.py:240-242 | no filter exactly for an absent, empty or "none" value; active rows exactly for "true", ignoring case |
| Catalog.Matching | app/services/product_service.py:233-242 | the listing holds exactly the rows whose name, SKU or description contains the term ignoring case and whose flag agrees, in table order (ids increase along it when they do along the table) |
| Catalog.GetProductsPaginated | app/services/product_service.py:210-253 | the total counts the matching rows; the page is `PageSlice` of them, so `PagesCoverAll` places every matching row on one page; the page count covers the total |
| Catalog.PaginationExample | app/services/product_service.py:245-252 | 50 rows at 20 per page make 3 pages, the first full |
| Registry.TaskRegistry.constructor | app/api/products.py:27-28 | the process starts with an empty `progress_store` and an empty `cancel_flags` |
| Registry.TaskRegistry.Put | app/services/product_service.py:199-203 | a write to `progress_store` replaces the task's record and touches nothing else |
| Registry.Classify | app/api/products.py:149-174 | completed with an error key is FAILURE; completed without is SUCCESS with `imported` and `total` defaulting to 0; not completed is PROGRESS |
| Registry.ClassifyWrittenRecords | app/api/products.py:149-174 | the start record reads as progress, a completed import as success with total 0, a cancelled record as success with 0 imported, an error record as failure |
| Registry.MarkCancelling | app/api/products.py:188-189 | cancellation relabels an existing record's status only and never adds a key |
| Registry.MarkCancellingIdempotent | app/api/products.py:177-190 | cancelling twice leaves the store as cancelling once |
| Registry.TaskRegistry.UploadFileDirect | app/api/products.py:47-99 | a name not ending in ".csv" is refused with 400 and nothing stored; otherwise the start record is stored, then replaced by an error record with a 500 if saving fails; flags untouched |
| Registry.TaskRegistry.TaskStatus | app/api/products.py:136-174 | 404 "Task not found" exactly for an unknown task; otherwise the classification of its record |
| Registry.TaskRegistry.CancelTask | app/api/products.py:177-190 | the flag is raised for any id, known or not; only an existing record is relabelled; the answer is always "cancelled" |
| Registry.TaskRegistry.StreamStep | app/api/products.py:113-123 | an unknown task ends the stream; a known task's record is sent; a completed record is evicted right after it is sent, and only then |
| Import.ProgressAt | app/services/product_service.py:198 | a published percentage lies within 10..95 |
| Import.ProgressAtFormula | app/services/product_service.py:198 | the percentage is `min(95, (offset + 5000) * 85 // n + 10)` |
| Import.ProgressMonotone | app/services/product_service.py:198 | a later slice never publishes a smaller percentage |
| Import.HaltFrom | app/services/product_service.py:160-195 | the loop stops at a slice offset inside the rows, or runs out of rows; `HaltFromStops` says which offset |
| Import.HaltFromStops | app/services/product_service.py:160-195 | the loop stops at the first slice boundary where the flag is seen or the write fails, and every earlier slice passed both checks |
| Import.WithInserted | app/services/product_service.py:188-193 | the bulk insert adds one row per staged row; `WithInsertedAppends` says which |
| Import.WithInsertedAppends | app/services/product_service.py:179-193 | the bulk insert keeps stored rows and appends one active row per staged row, with its name, SKU and description |
| Import.WithInsertedConcat | app/services/product_service.py:188-195 | inserting slice after slice equals inserting all staged rows at once |
| Import.WithInsertedWellFormed | app/services/product_service.py:188-195 | inserting lower-case, distinct, unstored SKUs keeps the table well formed |
| Import.WithInsertedExisting | app/services/product_service.py:121-132 | after the insert the stored SKUs are the old ones plus the inserted ones |
| Import.StagedInsertWellFormed | app/services/product_service.py:176-195 | whatever the loop stages against the stored SKUs can be inserted without breaking SKU uniqueness |
| Import.TrailFrom | app/services/product_service.py:197-203 | every record published while slices are written is a "Processing..." record not marked completed, so the stream never evicts the task mid-run; `TrailFromMonotone` bounds and orders their percentages |
| Import.TrailFromMonotone | app/services/product_service.py:197-203 | the published percentages stay within 10..95 and never decrease |
| Import.StageStep | app/services/product_service.py:172-186 | the rows staged through a slice are the rows staged before it followed by the slice's new rows, checked against the set the earlier slices grew |
| Import.TrailStep | app/services/product_service.py:197-203 | writing the slice at a boundary extends the published trail by exactly that slice's record: its percentage, its offset plus the slice size, the row count and the running imported count |
| Import.PrepareBatch | app/services/product_service.py:172-186 | the batch prepared for one slice is the staging of that slice against the set grown so far |
| Import.LatestOverwritten | app/services/product_service.py:163-203 | each store under the task id hides the earlier ones |
| Import.ProcessBatches | app/services/product_service.py:135-207 | the table gains exactly the staged rows of the slices walked before the stop; the flags are untouched; the store ends with the cancelled record after a cancel and otherwise with the last progress record; a failed write passes its error on after earlier slices stay written; otherwise the result is the number of rows staged |
| Import.ImportProductsFromCsv | app/services/product_service.py:23-102 | a parse failure stores the error record and changes no row; otherwise the table gains the staged rows of the walked prefix and stays well formed; a failed write ends in the error record; any other run, cancelled or not, ends in the "Completed!" record and answers imported and the pre-deduplication row count, imported never larger |
| Import.ReimportStagesNothing | app/services/product_service.py:121-186 | importing the same rows again into the resulting table stages nothing |
| Import.SameRawSkuKeepsLast | app/services/product_service.py:116-117 | of two rows with the same raw SKU, preprocessing keeps the later |
| Import.NormalizedCollisionKeepsFirst | app/services/product_service.py:116-186 | of two rows whose SKUs differ raw but normalize alike, both survive preprocessing and the loop imports the first |
| Import.CleaningFirstChangesWinner | app/services/product_service.py:116-186 | cleaning such a file's SKUs first makes the second row the one imported |
| Import.CaseOnlySkusCollide | app/services/product_service.py:117 | such rows exist: the SKUs "A" and "a" differ raw and normalize alike |
| Webhooks.FindWebhook | app/api/webhooks.py:126 | the lookup finds the first webhook with the id, or reports that none has it |
| Webhooks.WithoutId | app/api/webhooks.py:144 | the delete filter never adds entries; `WithoutIdMembers` says which it keeps |
| Webhooks.WithoutIdMembers | app/api/webhooks.py:144 | the delete filter keeps exactly the webhooks whose id differs |
| Webhooks.WithoutIdIncreasing | app/api/webhooks.py:144 | the filter keeps creation order |
| Webhooks.WithoutAbsentId | app/api/webhooks.py:144 | deleting an id nobody holds changes nothing |
| Webhooks.WithoutIdIdempotent | app/api/webhooks.py:140-145 | deleting twice is deleting once |
| Webhooks.WithoutIdRemovesOne | app/api/webhooks.py:144 | with distinct ids, the delete removes exactly the one matching entry |
| Webhooks.CreateThenDelete | app/api/webhooks.py:106-145 | deleting a freshly created webhook by its id restores the list, and the lookup finds it at the end |
| Webhooks.WithoutIdSplit | app/api/webhooks.py:144 | the filter distributes over concatenation |
| Webhooks.Patched | app/api/webhooks.py:130-135 | each field the request carries replaces the stored one and every other field stays; the id never changes, so an update naming no field changes nothing |
| Webhooks.PatchedIdempotent | app/api/webhooks.py:130-135 | sending the same update twice is sending it once |
| Webhooks.WebhookRegistry.constructor | app/api/webhooks.py:15-16 | the process starts with no webhooks and the counter at 0 |
| Webhooks.WebhookRegistry.ListWebhooks | app/api/webhooks.py:100-103 | the list holds the stored webhooks in creation order with increasing ids |
| Webhooks.WebhookRegistry.CreateWebhook | app/api/webhooks.py:106-120 | the counter is bumped and a webhook with the new counter value as id is appended and returned, subscribed to the three product events and enabled unless the request says otherwise; the id is larger than every stored id and the lookup finds it |
| Webhooks.WebhookRegistry.UpdateWebhook | app/api/webhooks.py:123-137 | 404 "Webhook not found" exactly when no webhook has the id; otherwise that webhook alone is patched and returned, its id kept |
| Webhooks.WebhookRegistry.DeleteWebhook | app/api/webhooks.py:140-145 | every webhook with the id is gone and the others keep their order; the answer is always "Webhook deleted" |
| Webhooks.WebhookRegistry.TestWebhook | app/api/webhooks.py:148-176 | 404 exactly for an unknown id; otherwise success with the status code when the endpoint answered, and failure with the error text when it did not, with the webhook's url |

## Left out

- CSV parsing (`pd.read_csv`) is not modelled. The importer receives the parsed rows, or the parse error, as a parameter. NaN cells and the `str()` of non-string cells are not modelled either.
- SQL sessions, transactions and rollback are not modelled. A storage error while writing a slice is a parameter. Slices committed before it stay written, which is what the code does.
- Concurrency is not modelled: threads, the executor and the asyncio event loop. The cancel flag the worker sees before each slice is a parameter.
- The progress percentage uses exact integer division in place of the float product `int(x / n * 85)`. The two can differ by one where the float rounds just below an integer.
- The text of status messages is not modelled. Their numbers are kept in the `Status` datatype.
- Timestamps (`created_at`, `datetime('now')`) are not modelled, nor response times.
- The temporary upload file, its removal, and the uuid generator are not modelled. The task id is a parameter.
- The HTTP client of the webhook test is not modelled. Its outcome is a parameter.
- The webhook receiver, the HTML pages and `app/main.py` are not modelled.
- `ILIKE` patterns are modelled without `%` and `_` wildcards inside the user's text. This covers the search term of the listing and the SKU checks of `create_product` and `update_product`, which the model treats as equality ignoring case.
- Text.Lower: folds ASCII letters only. SQLite's `LOWER` and `LIKE` do the same, but Python's `str.lower()` (used by preprocessing, the slice loop, `create_product` and `update_product`) also folds letters outside ASCII, so "É-1" and "é-1" collide in the program and not in the model, and `SkusLowercase` means "no ASCII upper-case letter".
- The paginated listing assumes a positive `per_page`. Rows are listed in table order, which is the order SQLite returns without `ORDER BY`.
- The failure of `_get_existing_skus` is not modelled.
- Entries of `cancel_flags` are never removed, in the code as in the model. A reused task id would see an old flag; uuid4 ids make that moot.
- The in-place growth of the caller's `existing_skus` set is not modelled. The grown set is returned as a value.
- Import.ProcessBatches: its contract does not state that the table stays well formed. `ImportProductsFromCsv` proves that instead, with `StagedInsertWellFormed`.
- Webhooks.WebhookRegistry.TestWebhook: the test payload and `response_time_ms` are not modelled.
