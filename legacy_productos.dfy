/** The older product handlers of backend/controllers/productos.controller.js:
    no `imagen` column in what they write or list, and no by-category listing.
    They run against the same tables as the newer handlers; an `imagen` value
    already stored is left as it is by their UPDATE and is NULL after their INSERT. */
module LegacyProductos {
  import opened Schema
  import opened Store
  import Productos

  /** A row of the older joined listing: no `imagen` field. */
  datatype LegacyListedProduct = LegacyListedProduct(
    id: int,
    nombre: string,
    descripcion: string,
    precio: Price,
    categoriaNombre: string)

  /** The older listing's row for a product that joins its category. */
  function LegacyJoinedRow(categorias: map<int, Categoria>, productos: map<int, Producto>, id: int)
    : LegacyListedProduct
    requires Productos.Joins(categorias, productos, id)
  {
    var p := productos[id];
    LegacyListedProduct(id, p.nombre, p.descripcion, p.precio, categorias[p.categoriaId].nombre)
  }

  /** GET /productos: the inner join of products with categories, without an image field. */
  function GetAllProducts(categorias: map<int, Categoria>, productos: map<int, Producto>, queryFails: bool)
    : (r: Reply<set<LegacyListedProduct>>)
    ensures queryFails ==> r == Reply(StatusServerError, None)
    ensures !queryFails ==> r.status == StatusOk && r.body.Some?
    ensures !queryFails ==> forall v :: v in r.body.value ==>
      Productos.Joins(categorias, productos, v.id) && v == LegacyJoinedRow(categorias, productos, v.id)
    ensures !queryFails ==> forall id :: Productos.Joins(categorias, productos, id) ==>
      LegacyJoinedRow(categorias, productos, id) in r.body.value
  {
    if queryFails then Reply(StatusServerError, None)
    else
      Reply(StatusOk, Some(set id | id in productos && Productos.Joins(categorias, productos, id)
                                :: LegacyJoinedRow(categorias, productos, id)))
  }

  /** GET /productos/{id}: issues the same `SELECT * FROM productos WHERE id = ?` as the newer handler. */
  function GetProductById(productos: map<int, Producto>, id: int, queryFails: bool): (r: Reply<Entry<Producto>>)
    ensures queryFails ==> r == Reply(StatusServerError, None)
    ensures !queryFails ==> (r.status == StatusNotFound <==> id !in productos)
    ensures !queryFails && id in productos ==> r == Reply(StatusOk, Some(Entry(id, productos[id])))
  {
    Productos.GetProductById(productos, id, queryFails)
  }

  /** POST /productos: check the category, then insert nombre, descripcion, precio and
      categoria_id only; the row's `imagen` is therefore NULL. */
  method CreateProduct(
    db: Database, nombre: string, descripcion: string, precio: Price, categoriaId: int,
    lookupFails: bool, insertFails: bool)
    returns (r: Reply<int>)
    requires db.Valid()
    modifies db`productos, db`nextProductoId
    ensures db.Valid()
    ensures r.status in {StatusCreated, StatusBadRequest, StatusServerError}
    ensures r.status == StatusServerError <==> lookupFails || (categoriaId in db.categorias && insertFails)
    ensures r.status == StatusBadRequest <==> !lookupFails && categoriaId !in db.categorias
    ensures r.status != StatusCreated ==>
      r.body.None? && db.productos == old(db.productos) && db.nextProductoId == old(db.nextProductoId)
    ensures r.status == StatusCreated ==>
      && r.body.Some? && r.body.value !in old(db.productos)
      && db.productos == old(db.productos)[r.body.value := Producto(nombre, descripcion, precio, categoriaId, None)]
    ensures ReferencesValid(db.categorias, old(db.productos)) ==> ReferencesValid(db.categorias, db.productos)
  {
    if lookupFails {
      return Reply(StatusServerError, None);
    }
    if categoriaId !in db.categorias {
      return Reply(StatusBadRequest, None);
    }
    if insertFails {
      return Reply(StatusServerError, None);
    }
    if ReferencesValid(db.categorias, db.productos) {
      CheckedWriteKeepsReferences(
        db.categorias, db.productos, db.nextProductoId, Producto(nombre, descripcion, precio, categoriaId, None));
    }
    var insertId := db.InsertProducto(Producto(nombre, descripcion, precio, categoriaId, None));
    r := Reply(StatusCreated, Some(insertId));
  }

  /** PUT /productos/{id}: check the category before the product, then overwrite the
      four columns; nothing else in the row changes. */
  method UpdateProduct(
    db: Database, id: int, nombre: string, descripcion: string, precio: Price, categoriaId: int,
    lookupFails: bool, updateFails: bool)
    returns (status: int)
    requires db.Valid()
    modifies db`productos
    ensures db.Valid()
    ensures status in {StatusOk, StatusBadRequest, StatusNotFound, StatusServerError}
    ensures status == StatusServerError <==> lookupFails || (categoriaId in db.categorias && updateFails)
    ensures status == StatusBadRequest <==> !lookupFails && categoriaId !in db.categorias
    ensures status == StatusNotFound <==>
      !lookupFails && categoriaId in db.categorias && !updateFails && id !in old(db.productos)
    ensures status != StatusOk ==> db.productos == old(db.productos)
    ensures status == StatusOk ==>
      && id in old(db.productos)
      && db.productos == old(db.productos)[id := old(db.productos)[id].(
           nombre := nombre, descripcion := descripcion, precio := precio, categoriaId := categoriaId)]
    ensures ReferencesValid(db.categorias, old(db.productos)) ==> ReferencesValid(db.categorias, db.productos)
  {
    if lookupFails {
      return StatusServerError;
    }
    if categoriaId !in db.categorias {
      return StatusBadRequest;
    }
    if updateFails {
      return StatusServerError;
    }
    if ReferencesValid(db.categorias, db.productos) && id in db.productos {
      CheckedWriteKeepsReferences(db.categorias, db.productos, id, db.productos[id].(
        nombre := nombre, descripcion := descripcion, precio := precio, categoriaId := categoriaId));
    }
    var affectedRows := db.UpdateProductoColumns(id, nombre, descripcion, precio, categoriaId);
    if affectedRows == 0 {
      return StatusNotFound;
    }
    status := StatusOk;
  }

  /** DELETE /productos/{id}: the same statement and status ladder as the newer handler. */
  method DeleteProduct(db: Database, id: int, deleteFails: bool) returns (status: int)
    requires db.Valid()
    modifies db`productos
    ensures db.Valid()
    ensures status in {StatusOk, StatusNotFound, StatusServerError}
    ensures status == StatusServerError <==> deleteFails
    ensures status == StatusNotFound <==> !deleteFails && id !in old(db.productos)
    ensures status != StatusOk ==> db.productos == old(db.productos)
    ensures status == StatusOk ==> id in old(db.productos) && db.productos == old(db.productos) - {id}
    ensures ReferencesValid(db.categorias, old(db.productos)) ==> ReferencesValid(db.categorias, db.productos)
  {
    status := Productos.DeleteProduct(db, id, deleteFails);
  }
}
