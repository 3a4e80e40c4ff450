# Catalog backend and admin product list, modelled in Dafny

This project models the core of a small e-commerce catalog. It has two parts.

- **The REST handlers** for products, categories and users. Each handler runs one or two SQL
  statements against the tables `categorias`, `productos` and `usuarios`. Then it either writes
  or returns a status code: 200, 201, 400, 404, or 500 when the store fails.
- **The admin page's in-browser product list** (`scripts/admin.js`). It is an array the page
  changes in place when a product is created, edited or deleted.

## Layout

- `schema.dfy` (module `Schema`): the rows of the three tables, without their id column, and the
  reply shape. A reply is a status code plus an optional body value. An `Entry` holds an id and
  its row, which is what `SELECT *` returns.
- `store.dfy` (module `Store`): class `Database`. It has three `map<int, Row>` fields and one
  AUTO_INCREMENT counter per table. `Valid()` keeps every id below its table's counter, so the
  counter is always a fresh `insertId`. Each method models one INSERT, UPDATE or DELETE
  statement and returns `insertId` or `affectedRows`. For an UPDATE, `affectedRows` counts the
  matched rows, as the MySQL driver reports them, so it is 0 exactly when the id is absent.
- `productos.dfy` (module `Productos`): the handlers of
  `backend/src/controllers/productos.controller.js`, the version with the `imagen` column.
- `legacy_productos.dfy` (module `LegacyProductos`): the older handlers of
  `backend/controllers/productos.controller.js`. They have no `imagen` and no by-category listing.
  They run against the same tables. Their INSERT leaves `imagen` NULL and their UPDATE does not
  touch it.
- `categorias.dfy` (module `Categorias`) and `usuarios.dfy` (module `Usuarios`): the category
  and user handlers.
- `referential.dfy` (module `Referential`): what the category check before every product write
  guarantees across the two tables, and what it does not. The rule itself, `ReferencesValid`,
  and the lemma that a checked write keeps it live in `Store`; every product write handler
  states that it preserves the rule. It also has the end-to-end
  "Juguetes"/"Oso" scenario.
- `admin.dfy` (module `Admin`): class `ProductList`, whose field `productos: seq<Item>` is the
  page's module-level array.

How the model is built:

- **Read handlers** are functions of the table maps.
- **Write handlers** are methods that take the `Database` and change only the fields they name.
- **Store failures** enter as boolean parameters, such as `lookupFails` and `insertFails`. Each
  one stands for the `err` argument of one `db.query` callback. When it is set, the handler
  answers 500, writes nothing and skips the later statements.
- **The uploaded file** is the `upload: Option<string>` parameter. It holds the stored filename,
  or `None` when no file was sent (`req.file ? req.file.filename : null`).
- **Prices** are `real` values. They are stored and returned, but never computed with.
- **Listings** are sets, because the SQL statements fix no order.
- **Login** reads `results[0]`. The model takes that row to be the matching account with the
  smallest id.

## Model

| member | source | states |
|---|---|---|
| `Productos.GetProductsByCategory` | backend/src/controllers/productos.controller.js:73-96 | 200 with exactly the products whose `categoria_id` equals the parameter and names an existing category, each tagged with that category's name; an unknown category gives an empty 200 listing; 500 on a failed query |
| `Productos.GetAllProducts` | backend/src/controllers/productos.controller.js:114-134 | 200 with exactly the products whose category exists (inner join), each with its columns, `imagen` and the category's `nombre`; 500 on a failed query |
| `Productos.GetProductById` | backend/src/controllers/productos.controller.js:158-169 | 404 exactly when no row has the id; otherwise 200 with the raw row (no category name); 500 on a failed query |
| `Productos.CreateProduct` | backend/src/controllers/productos.controller.js:203-222 | unknown category: 400 and `productos` unchanged; otherwise 201 with a fresh id and exactly one new row holding nombre, descripcion, precio, categoria_id and the uploaded filename or NULL; other rows unchanged; 500 on either failed statement without writing; every product reference that was valid stays valid |
| `Productos.UpdateProduct` | backend/src/controllers/productos.controller.js:264-287 | the category is checked first: invalid gives 400 even for an absent product; valid category and absent id gives 404; success overwrites all five columns of that row only, so `imagen` becomes NULL without an upload; nothing changes on any non-200 status; every product reference that was valid stays valid |
| `Productos.DeleteProduct` | backend/src/controllers/productos.controller.js:309-320 | 404 exactly when the id is absent; otherwise 200 and only that row is removed; 500 on a failed statement without change; every product reference that was valid stays valid |
| `LegacyProductos.GetAllProducts` | backend/controllers/productos.controller.js:27-46 | 200 with the inner join of products and categories, without an image field; 500 on a failed query |
| `LegacyProductos.GetProductById` | backend/controllers/productos.controller.js:70-81 | 404 exactly when the id is absent, otherwise 200 with the single matching row |
| `LegacyProductos.CreateProduct` | backend/controllers/productos.controller.js:112-128 | unknown category: 400 and nothing inserted; otherwise 201 with a fresh id and one new row with exactly nombre, descripcion, precio and categoria_id (image NULL); every product reference that was valid stays valid |
| `LegacyProductos.UpdateProduct` | backend/controllers/productos.controller.js:167-187 | invalid category gives 400 before the product is looked at; 404 when no row matched; success overwrites the four columns and keeps the stored `imagen`; every product reference that was valid stays valid |
| `LegacyProductos.DeleteProduct` | backend/controllers/productos.controller.js:209-220 | 500 exactly when the statement fails, without any change; 404 exactly when the statement succeeds and the id is absent; otherwise only that row is removed; every product reference that was valid stays valid |
| `Categorias.GetAllCategories` | backend/src/controllers/categorias.controller.js:26-33 | 200 with exactly every category row, id and columns; 500 on a failed query |
| `Categorias.GetCategoryById` | backend/src/controllers/categorias.controller.js:57-68 | 404 exactly when the id is absent, otherwise 200 with that category |
| `Categorias.CreateCategory` | backend/src/controllers/categorias.controller.js:93-101 | inserts without any check (duplicate names allowed) and returns 201 with a fresh id; existing categories unchanged |
| `Categorias.UpdateCategory` | backend/src/controllers/categorias.controller.js:134-146 | 404 exactly when the id is absent; otherwise overwrites nombre and descripcion of that row only |
| `Categorias.DeleteCategory` | backend/src/controllers/categorias.controller.js:168-179 | 404 exactly when the id is absent; otherwise removes only that category and leaves every product, including those that reference it, untouched |
| `Usuarios.CreateUser` | backend/src/controllers/usuarios.controller.js:32-53 | an email already present gives 400 and leaves `usuarios` unchanged; a new email inserts one row with nombre, email and contrasena and returns 201 with its id; unique emails stay unique |
| `Usuarios.LoginUser` | backend/src/controllers/usuarios.controller.js:81-100 | 400 exactly when no account matches both email and password; otherwise 200 with a token whose id names a matching account, whose email is that account's, and whose lifetime is 3600 s; it is a function, so no table changes |
| `Usuarios.LeastExists` | backend/src/controllers/usuarios.controller.js:95 | every non-empty set of matching ids has a least one, so `results[0]` is well defined |
| `Usuarios.LeastId` | backend/src/controllers/usuarios.controller.js:95 | the chosen row is a matching row, and no smaller id matches |
| `Usuarios.LoginNamesTheAccount` | backend/src/controllers/usuarios.controller.js:85-96 | when emails are unique, logging in with an account's email and password yields a token for exactly that account |
| `Store.Database.InsertCategoria` | backend/src/controllers/categorias.controller.js:95 | the new row gets `insertId`, an id not in use; only that key is added |
| `Store.Database.UpdateCategoria` | backend/src/controllers/categorias.controller.js:137 | `affectedRows` is 1 exactly when the id exists, and only that row is overwritten |
| `Store.Database.DeleteCategoria` | backend/src/controllers/categorias.controller.js:170 | `affectedRows` is 1 exactly when the id exists; only that key is removed |
| `Store.Database.InsertProducto` | backend/src/controllers/productos.controller.js:214-215 | the new row gets a fresh `insertId`; other rows unchanged |
| `Store.Database.UpdateProducto` | backend/src/controllers/productos.controller.js:276-277 | all five columns of the matched row are replaced; `affectedRows` is 0 exactly when the id is absent |
| `Store.Database.UpdateProductoColumns` | backend/controllers/productos.controller.js:177 | four columns are replaced and `imagen` keeps its value; `affectedRows` is 0 exactly when the id is absent |
| `Store.Database.DeleteProducto` | backend/src/controllers/productos.controller.js:311 | `affectedRows` is 1 exactly when the id exists; only that row is removed |
| `Store.Database.InsertUsuario` | backend/src/controllers/usuarios.controller.js:46 | the new account gets a fresh `insertId`; other accounts unchanged |
| `Store.CheckedWriteKeepsReferences` | backend/src/controllers/productos.controller.js:207-219 | a product write that passed the category check keeps every product's category reference valid |
| `Referential.ValidReferencesListEverything` | backend/src/controllers/productos.controller.js:114-127 | while all references are valid, the joined listing contains every product |
| `Referential.DeleteCategoryCanBreakReferences` | backend/src/controllers/categorias.controller.js:168-179 | a concrete state in which deleting a category leaves a product referring to no category |
| `Referential.OrphanedProductVisibility` | backend/src/controllers/categorias.controller.js:170 | after its category is deleted, a product is still returned by `getProductById` but is absent from both joined listings and its category's listing is empty |
| `Referential.JuguetesScenario` | backend/src/controllers/productos.controller.js:203-222 | creating category "Juguetes" and then product "Oso" in it makes the joined listing show "Oso" with the category name "Juguetes" |
| `Admin.NextId` | scripts/admin.js:74 | the new id is 1 for an empty list; when ids increase, it exceeds every id in the list |
| `Admin.IndexOfId` | scripts/admin.js:64 | -1 exactly when no product has the id; otherwise the first position holding it |
| `Admin.WithoutId` | scripts/admin.js:105 | the filtered list is no longer and holds no product with the id |
| `Admin.WithoutIdMembers` | scripts/admin.js:105 | a product remains after deletion exactly when it was in the list with another id |
| `Admin.WithoutAbsentId` | scripts/admin.js:105 | deleting an id not in the list leaves the list unchanged |
| `Admin.WithoutIdDistributes` | scripts/admin.js:105 | filtering a concatenation filters each part, so the remaining products keep their original order |
| `Admin.WithoutIdKeepsIncreasing` | scripts/admin.js:105 | delete keeps ids strictly increasing |
| `Admin.AppendNextKeepsIncreasing` | scripts/admin.js:73-76 | appending with `last.id + 1` keeps ids strictly increasing |
| `Admin.ReplaceSameIdKeepsIncreasing` | scripts/admin.js:64-69 | replacing an element by one with the same id keeps ids strictly increasing |
| `Admin.IncreasingIdsAreUnique` | scripts/admin.js:73 | strictly increasing ids are unique, the property the comment claims |
| `Admin.KeptImage` | scripts/admin.js:70 | the new image when one was given (non-empty), otherwise the previous image |
| `Admin.ProductList.constructor` | scripts/admin.js:2 | the list starts as the stored list, or empty when nothing is stored |
| `Admin.ProductList.CrearProducto` | scripts/admin.js:72-77 | appends one product with id `NextId` at the end; earlier elements unchanged; increasing (hence unique) ids are preserved |
| `Admin.ProductList.ActualizarProducto` | scripts/admin.js:62-71 | replaces only the element at the first index holding the id, keeps that id, keeps the old image when none is given; increasing ids preserved |
| `Admin.ProductList.GuardarProducto` | scripts/admin.js:62-77 | create branch without a form id and update branch with one, each with its effect on the list; increasing ids preserved |
| `Admin.ProductList.EliminarProducto` | scripts/admin.js:103-105 | the list becomes the filter by id: exactly the products with another id remain, in order, and an absent id changes nothing; increasing ids preserved |

## Left out

- Multer disk storage, the `Date.now()` filename and the 5 MB limit (backend/src/controllers/productos.controller.js:4-18) are file I/O and a clock. The upload is an optional filename parameter.
- `jwt.sign` and its hard-coded secret are a foreign library. The token is the record of its claims (`id`, `email`) and its one-hour lifetime. The issue time and the signature are not modelled.
- The SQL engine and connection are not modelled. A failed statement is a boolean parameter that makes the handler answer 500 with no write. Error message texts are not modelled. Email and password comparison is exact string equality, with no collation or case rules.
- The request fields are typed values. `categoria_id` and ids are `int`, so an absent or non-numeric field, which SQL would compare as NULL or coerce, is not represented.
- The race between the check and the write in createProduct, updateProduct and createUser is not modelled, because the model is sequential. Under concurrency, the category reference and email uniqueness can be broken.
- The order of listed rows is not modelled: listings are sets. The login handler's `results[0]` is taken to be the matching row with the smallest id.
- Usuarios.LoginUser: picks the matching account with the smallest id, while the source takes whichever row the store returns first. The contract states only that the token names a matching account.
- Express wiring, CORS, static serving, the global error handler, the routers and the Swagger setup are framework plumbing.
- The DOM code of scripts/admin.js is not modelled: `mostrarProductos`, the form filling of `editarProducto`, `convertirImagenABase64` and the `localStorage` writes. The chosen image arrives as its data-URL string, `""` when no file was chosen. `parseInt` and `parseFloat` are not modelled: ids are `int` and prices are `real`.
- Admin.ProductList.ActualizarProducto: requires the id to be in the list. The source's behaviour for an id that is not found (index -1) is not modelled.
- scripts/main.js and frontend/scripts/main.js render cards with a one-line category filter and are not part of this model. Formatting prices with `toFixed` is not modelled either.
