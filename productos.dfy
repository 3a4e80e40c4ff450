/** The product handlers of backend/src/controllers/productos.controller.js,
    the variant with the `imagen` column. Each handler's failed SQL call
    (the `err` branch) is an input flag: the handler then answers 500 and
    writes nothing. */
module Productos {
  import opened Schema
  import opened Store

  /** A row of the joined listing: the product's columns (without `categoria_id`)
      and the joined category's name as `categoria_nombre`. */
  datatype ListedProduct = ListedProduct(
    id: int,
    nombre: string,
    descripcion: string,
    precio: Price,
    imagen: Option<string>,
    categoriaNombre: string)

  /** Product `id` survives `productos JOIN categorias ON productos.categoria_id = categorias.id`. */
  predicate Joins(categorias: map<int, Categoria>, productos: map<int, Producto>, id: int)
  {
    id in productos && productos[id].categoriaId in categorias
  }

  /** The inner join's tagged row for a product that joins. */
  function JoinedRow(categorias: map<int, Categoria>, productos: map<int, Producto>, id: int): ListedProduct
    requires Joins(categorias, productos, id)
  {
    var p := productos[id];
    ListedProduct(id, p.nombre, p.descripcion, p.precio, p.imagen, categorias[p.categoriaId].nombre)
  }

  /** GET /productos/categoria/{categoria_id}: the join restricted to one category;
      an unknown category or one without products gives an empty 200 listing. */
  function GetProductsByCategory(
    categorias: map<int, Categoria>, productos: map<int, Producto>, categoriaId: int, queryFails: bool)
    : (r: Reply<set<ListedProduct>>)
    ensures queryFails ==> r == Reply(StatusServerError, None)
    ensures !queryFails ==> r.status == StatusOk && r.body.Some?
    ensures !queryFails ==> forall v :: v in r.body.value ==>
      Joins(categorias, productos, v.id) && productos[v.id].categoriaId == categoriaId
      && v == JoinedRow(categorias, productos, v.id)
    ensures !queryFails ==> forall id :: Joins(categorias, productos, id) && productos[id].categoriaId == categoriaId ==>
      JoinedRow(categorias, productos, id) in r.body.value
    ensures !queryFails && categoriaId !in categorias ==> r.body == Some({})
  {
    if queryFails then Reply(StatusServerError, None)
    else
      var rows := set id | id in productos && Joins(categorias, productos, id) && productos[id].categoriaId == categoriaId
                         :: JoinedRow(categorias, productos, id);
      assert categoriaId !in categorias ==> forall v :: v !in rows;
      assert categoriaId !in categorias ==> rows == {};
      Reply(StatusOk, Some(rows))
  }

  /** GET /productos: every product whose category exists, tagged with that category's name;
      products whose category is gone are silently dropped by the inner join. */
  function GetAllProducts(categorias: map<int, Categoria>, productos: map<int, Producto>, queryFails: bool)
    : (r: Reply<set<ListedProduct>>)
    ensures queryFails ==> r == Reply(StatusServerError, None)
    ensures !queryFails ==> r.status == StatusOk && r.body.Some?
    ensures !queryFails ==> forall v :: v in r.body.value ==>
      Joins(categorias, productos, v.id) && v == JoinedRow(categorias, productos, v.id)
    ensures !queryFails ==> forall id :: Joins(categorias, productos, id) ==>
      JoinedRow(categorias, productos, id) in r.body.value
  {
    if queryFails then Reply(StatusServerError, None)
    else Reply(StatusOk, Some(set id | id in productos && Joins(categorias, productos, id) :: JoinedRow(categorias, productos, id)))
  }

  /** GET /productos/{id}: the raw row (`SELECT *`, no category name), or 404. */
  function GetProductById(productos: map<int, Producto>, id: int, queryFails: bool): (r: Reply<Entry<Producto>>)
    ensures queryFails ==> r == Reply(StatusServerError, None)
    ensures !queryFails ==> (r.status == StatusNotFound <==> id !in productos)
    ensures !queryFails ==> (r.status == StatusOk <==> id in productos)
    ensures !queryFails && id in productos ==> r.body == Some(Entry(id, productos[id]))
    ensures r.status != StatusOk ==> r.body.None?
  {
    if queryFails then Reply(StatusServerError, None)
    else if id !in productos then Reply(StatusNotFound, None)
    else Reply(StatusOk, Some(Entry(id, productos[id])))
  }

  /** POST /productos: check the category, then insert all five columns; `upload` is the
      stored filename of the uploaded image, or None when no file was sent (NULL). */
  method CreateProduct(
    db: Database, nombre: string, descripcion: string, precio: Price, categoriaId: int,
    upload: Option<string>, lookupFails: bool, insertFails: bool)
    returns (r: Reply<int>)
    requires db.Valid()
    modifies db`productos, db`nextProductoId
    ensures db.Valid()
    ensures r.status in {StatusCreated, StatusBadRequest, StatusServerError}
    ensures r.status == StatusServerError <==> lookupFails || (categoriaId in db.categorias && insertFails)
    ensures r.status == StatusBadRequest <==> !lookupFails && categoriaId !in db.categorias
    ensures r.status != StatusCreated ==>
      r.body.None? && db.productos == old(db.productos) && db.nextProductoId == old(db.nextProductoId)
    ensures r.status == StatusCreated ==>
      && r.body.Some? && r.body.value !in old(db.productos)
      && db.productos == old(db.productos)[r.body.value := Producto(nombre, descripcion, precio, categoriaId, upload)]
      && categoriaId in db.categorias
    ensures ReferencesValid(db.categorias, old(db.productos)) ==> ReferencesValid(db.categorias, db.productos)
  {
    if lookupFails {
      return Reply(StatusServerError, None);
    }
    if categoriaId !in db.categorias {
      return Reply(StatusBadRequest, None);
    }
    if insertFails {
      return Reply(StatusServerError, None);
    }
    if ReferencesValid(db.categorias, db.productos) {
      CheckedWriteKeepsReferences(
        db.categorias, db.productos, db.nextProductoId, Producto(nombre, descripcion, precio, categoriaId, upload));
    }
    var insertId := db.InsertProducto(Producto(nombre, descripcion, precio, categoriaId, upload));
    r := Reply(StatusCreated, Some(insertId));
  }

  /** PUT /productos/{id}: check the category first, then overwrite all five columns;
      without an uploaded file `imagen` becomes NULL, the old image is not kept. */
  method UpdateProduct(
    db: Database, id: int, nombre: string, descripcion: string, precio: Price, categoriaId: int,
    upload: Option<string>, lookupFails: bool, updateFails: bool)
    returns (status: int)
    requires db.Valid()
    modifies db`productos
    ensures db.Valid()
    ensures status in {StatusOk, StatusBadRequest, StatusNotFound, StatusServerError}
    ensures status == StatusServerError <==> lookupFails || (categoriaId in db.categorias && updateFails)
    ensures status == StatusBadRequest <==> !lookupFails && categoriaId !in db.categorias
    ensures status == StatusNotFound <==>
      !lookupFails && categoriaId in db.categorias && !updateFails && id !in old(db.productos)
    ensures status != StatusOk ==> db.productos == old(db.productos)
    ensures status == StatusOk ==>
      && id in old(db.productos)
      && db.productos == old(db.productos)[id := Producto(nombre, descripcion, precio, categoriaId, upload)]
    ensures ReferencesValid(db.categorias, old(db.productos)) ==> ReferencesValid(db.categorias, db.productos)
  {
    if lookupFails {
      return StatusServerError;
    }
    if categoriaId !in db.categorias {
      return StatusBadRequest;
    }
    if updateFails {
      return StatusServerError;
    }
    if ReferencesValid(db.categorias, db.productos) {
      CheckedWriteKeepsReferences(
        db.categorias, db.productos, id, Producto(nombre, descripcion, precio, categoriaId, upload));
    }
    var affectedRows := db.UpdateProducto(id, Producto(nombre, descripcion, precio, categoriaId, upload));
    if affectedRows == 0 {
      return StatusNotFound;
    }
    status := StatusOk;
  }

  /** DELETE /productos/{id}: delete the row, 404 when nothing was deleted. */
  method DeleteProduct(db: Database, id: int, deleteFails: bool) returns (status: int)
    requires db.Valid()
    modifies db`productos
    ensures db.Valid()
    ensures status in {StatusOk, StatusNotFound, StatusServerError}
    ensures status == StatusServerError <==> deleteFails
    ensures status == StatusNotFound <==> !deleteFails && id !in old(db.productos)
    ensures status != StatusOk ==> db.productos == old(db.productos)
    ensures status == StatusOk ==> id in old(db.productos) && db.productos == old(db.productos) - {id}
    ensures ReferencesValid(db.categorias, old(db.productos)) ==> ReferencesValid(db.categorias, db.productos)
  {
    if deleteFails {
      return StatusServerError;
    }
    var affectedRows := db.DeleteProducto(id);
    if affectedRows == 0 {
      return StatusNotFound;
    }
    status := StatusOk;
  }
}
