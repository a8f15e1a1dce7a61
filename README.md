# Product catalog editor — a Dafny model

This project models `ProductsComponent`, the admin grid of the storefront
front-end, where an operator browses, edits in place, adds and deletes
products. The component keeps three pieces of state:

- `database`: the products shown in the grid. A successful load replaces it, a
  successful add appends the created product, and a successful delete filters
  the deleted id out.
- `updatedRows`: the dirty list of edited rows. A cell edit upserts the whole
  edited row by `id`. The "update products" button sends the rows one
  `updateProduct` call at a time and stops at the first failure.
- `newProduct`: the add form's draft of five text fields. An add is refused
  locally unless name, price, stock and category are all non-empty. After a
  successful add the draft is reset to empty.

Files:

- `catalog.dfy` (module `Catalog`): product rows and the pure updaters applied
  to the two row lists (`FindIndex`, `Upsert`, `RemoveById`), the prefix of
  successful update calls (`CommittedPrefix`), and lemmas about them. The
  lemmas cover last write wins and no duplicate ids over any sequence of edits,
  order-preserving removal, and removal of exactly one row when ids are unique.
- `draft.dfy` (module `Drafts`): the draft record, the per-field `onChange`
  updater and the required-field guard of the add handler.
- `products_component.dfy` (module `Editor`): class `ProductsComponent` with the
  three state fields and one method per handler. Each remote call is an
  outcome passed in by the caller: `Result<T>` for fetch, add and delete, and
  one `bool` per update call for the flush. The class invariant `Valid()` is
  the one the component establishes itself: `updatedRows` holds at most one
  row per id.

Three behaviours of the code are easy to miss, and the model keeps all three:

- `handleUpdateProducts` never clears `updatedRows`, on success or on failure.
  `HandleUpdateProducts` therefore changes no state, and a second flush sends
  every row again.
- `handleDeleteProduct` sends every rejection, not-found included, to the error
  path. The list is then left unchanged and the error notice is shown.
- A delete does not touch `updatedRows`. A row that is edited and then deleted
  is sent again by every later flush. If that update fails, the rows after it
  are not sent. `Editor.EditThenDeleteThenFlush` shows this from the handlers'
  contracts.

## Model

| member | source | states |
|---|---|---|
| `Catalog.FindIndex` | src/components/ProductsComponent.jsx:48 | the result is -1 exactly when no row has the id; otherwise it is an index holding the id with no earlier row holding it |
| `Catalog.Upsert` | src/components/ProductsComponent.jsx:47-56 | an id not yet in the list: the edited row is appended (length +1, earlier entries unchanged). An id already present: the length is unchanged and the first row with that id is replaced in place by the new full row |
| `Catalog.UpsertLookup` | src/components/ProductsComponent.jsx:45-57 | read as a map from id to row, an edit maps the edited id to the edited row (last write wins) and leaves every other id's row unchanged |
| `Catalog.UpsertKeepsIdsUnique` | src/components/ProductsComponent.jsx:47-56 | an edit on a list without duplicate ids leaves it without duplicate ids |
| `Catalog.LastWriteWins` | src/components/ProductsComponent.jsx:45-57 | after any sequence of edits, the dirty list's row for an id is the last edit submitted for that id; ids never edited keep their earlier row |
| `Catalog.EditsKeepIdsUnique` | src/components/ProductsComponent.jsx:23-57 | starting from a list without duplicate ids, such as the initial `[]`, no sequence of edits creates two rows with the same id |
| `Catalog.DirtyIdsAreEditedIds` | src/components/ProductsComponent.jsx:45-57 | from the initial empty list, the dirty list holds a row for an id exactly when that id was edited |
| `Catalog.RemoveById` | src/components/ProductsComponent.jsx:102 | the filtered list holds exactly the rows of the old list whose id differs from the deleted one, and it is no longer |
| `Catalog.RemoveByIdAppend` | src/components/ProductsComponent.jsx:102 | filtering distributes over concatenation, so the kept rows keep their original relative order |
| `Catalog.RemoveByIdAbsent` | src/components/ProductsComponent.jsx:99-107 | filtering out an id the list does not hold leaves the list unchanged |
| `Catalog.RemoveByIdUnique` | src/components/ProductsComponent.jsx:102 | in a list without duplicate ids, deleting the id at index k gives the list without index k, one row shorter |
| `Catalog.RemoveByIdKeepsIdsUnique` | src/components/ProductsComponent.jsx:102 | filtering keeps a list free of duplicate ids |
| `Catalog.AppendFreshKeepsIdsUnique` | src/components/ProductsComponent.jsx:84 | appending a created product whose id is new keeps the product ids unique |
| `Catalog.CommittedPrefix` | src/components/ProductsComponent.jsx:61-63 | the number of update calls that succeed before the first failure: every earlier call succeeded, and the call at that index, if any, failed |
| `Drafts.WithField` | src/components/ProductsComponent.jsx:152-190 | an input's change sets its own draft field to the typed value and keeps the other four fields |
| `Drafts.Complete` | src/components/ProductsComponent.jsx:73-78 | the add guard passes exactly when name, price, stock and category are all non-empty, that is every field except the description; a string field is falsy only when it is empty |
| `Drafts.CompleteAfterInput` | src/components/ProductsComponent.jsx:73-78 | typing into the description never changes whether an add is allowed. After typing into a required field, an add is allowed exactly when the typed value and the other three required fields are non-empty |
| `Drafts.EmptyDraft` | src/components/ProductsComponent.jsx:85-91 | the initial and reset draft: all five fields are the empty string, so the guard refuses it |
| `Editor.ProductsComponent.constructor` | src/components/ProductsComponent.jsx:22-30 | the initial state: no products, no edited rows, an all-empty draft |
| `Editor.ProductsComponent.FetchData` | src/components/ProductsComponent.jsx:32-43 | a successful fetch replaces `database` wholesale with the fetched list. A failed fetch leaves it as it was, which is the initial empty list on mount |
| `Editor.ProductsComponent.HandleCellEdited` | src/components/ProductsComponent.jsx:45-57 | `updatedRows` becomes the upsert of the edited row. The edited id now maps to the edited row and every other id's row is unchanged. The list stays free of duplicate ids |
| `Editor.ProductsComponent.HandleUpdateProducts` | src/components/ProductsComponent.jsx:59-69 | one update call per row, in list order, with the row's id, the row and the token. If call k fails, exactly calls 1..k are made and no later one. Success is reported exactly when every call succeeds. No state changes, `updatedRows` included |
| `Editor.ProductsComponent.HandleAddProduct` | src/components/ProductsComponent.jsx:71-97 | with a required field empty: no remote call, and `database` and the draft are unchanged. Otherwise the draft is sent once with the token. On success the returned product is appended as the last row and all five draft fields are reset; on failure both stay as they were. If the list had no duplicate ids and the returned id is new, it still has none |
| `Editor.ProductsComponent.HandleDeleteProduct` | src/components/ProductsComponent.jsx:99-108 | on success, `database` becomes the old list with every product of that id removed and the rest in order. On failure it is unchanged. A list without duplicate ids keeps none |
| `Editor.ProductsComponent.HandleNewProductInput` | src/components/ProductsComponent.jsx:152-190 | the draft's edited field takes the typed value; the other four fields are unchanged |

## Left out

- Rendering: the JSX layout, the grid's column definitions and options, and the delete button built with `document.createElement`. These are UI and a third-party grid; the button's click is modelled as a call of `HandleDeleteProduct` with the row's id.
- `SalesChart` and `ChartComponent`: read-only widgets that are not part of this model.
- The Redux selector for the user: the token is a parameter, absent when no user is logged in, passed through unchanged to the calls.
- `alert` and `console.error`: modelled only as the outcome that says which notice is shown (`ok`, `AddOutcome`).
- The bodies of `fetchProducts`, `addProduct`, `updateProduct` and `deleteProduct`: network I/O, modelled as success or failure outcomes supplied by the caller. The server state that a successful update changes is not modelled; the flush states which update calls were made.
- Asynchronous interleaving: each handler runs to completion before the next event. A flush and a delete in flight at the same time, or React's batching of state updates, are not modelled.
- Row objects are values in the model. The grid is handed `database`'s own row objects, and `getData()` returns the live row object that goes into `updatedRows`. Aliasing between the grid's rows, the entries of `database` and the entries of `updatedRows` is not captured.
- The class invariant does not keep `database` free of duplicate ids. The fetched list and the created product's id come from the server. `HandleAddProduct` and `HandleDeleteProduct` keep uniqueness only when it held before and, for an add, when the returned id is new.
- Field types: all five product fields are strings. Values of other types that the server may return for `price` or `stock`, and JavaScript truthiness of non-strings in the add guard, are not modelled.
- Editor.ProductsComponent.HandleUpdateProducts: the outcome of every possible update call is given in advance, one per row, so the method requires as many outcomes as rows; only the first failing one and those before it are ever read.
- `src/pages/Login.jsx`, `src/components/Testimonials.jsx`, `src/components/Footer.jsx`: a login form with two non-empty checks and static markup, outside the catalog editor.
