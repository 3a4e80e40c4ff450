/** The category handlers of backend/src/controllers/categorias.controller.js. */
module Categorias {
  import opened Schema
  import opened Store

  /** GET /categorias: every category row, in no particular order. */
  function GetAllCategories(categorias: map<int, Categoria>, queryFails: bool): (r: Reply<set<Entry<Categoria>>>)
    ensures queryFails ==> r == Reply(StatusServerError, None)
    ensures !queryFails ==> r.status == StatusOk && r.body.Some?
    ensures !queryFails ==> forall e :: e in r.body.value ==> e.id in categorias && categorias[e.id] == e.row
    ensures !queryFails ==> forall id :: id in categorias ==> Entry(id, categorias[id]) in r.body.value
  {
    if queryFails then Reply(StatusServerError, None)
    else
      Reply(StatusOk, Some(set id | id in categorias :: Entry(id, categorias[id])))
  }

  /** GET /categorias/{id}: that category, or 404. */
  function GetCategoryById(categorias: map<int, Categoria>, id: int, queryFails: bool): (r: Reply<Entry<Categoria>>)
    ensures queryFails ==> r == Reply(StatusServerError, None)
    ensures !queryFails ==> (r.status == StatusNotFound <==> id !in categorias)
    ensures !queryFails && id in categorias ==> r == Reply(StatusOk, Some(Entry(id, categorias[id])))
    ensures r.status != StatusOk ==> r.body.None?
  {
    if queryFails then Reply(StatusServerError, None)
    else if id !in categorias then Reply(StatusNotFound, None)
    else Reply(StatusOk, Some(Entry(id, categorias[id])))
  }

  /** POST /categorias: inserts without any check, so duplicate names are accepted. */
  method CreateCategory(db: Database, nombre: string, descripcion: string, insertFails: bool)
    returns (r: Reply<int>)
    requires db.Valid()
    modifies db`categorias, db`nextCategoriaId
    ensures db.Valid()
    ensures r.status in {StatusCreated, StatusServerError}
    ensures r.status == StatusServerError <==> insertFails
    ensures insertFails ==>
      r.body.None? && db.categorias == old(db.categorias) && db.nextCategoriaId == old(db.nextCategoriaId)
    ensures !insertFails ==>
      && r.body.Some? && r.body.value !in old(db.categorias)
      && db.categorias == old(db.categorias)[r.body.value := Categoria(nombre, descripcion)]
  {
    if insertFails {
      return Reply(StatusServerError, None);
    }
    var insertId := db.InsertCategoria(Categoria(nombre, descripcion));
    r := Reply(StatusCreated, Some(insertId));
  }

  /** PUT /categorias/{id}: overwrite nombre and descripcion, 404 when no row matched. */
  method UpdateCategory(db: Database, id: int, nombre: string, descripcion: string, updateFails: bool)
    returns (status: int)
    requires db.Valid()
    modifies db`categorias
    ensures db.Valid()
    ensures status in {StatusOk, StatusNotFound, StatusServerError}
    ensures status == StatusServerError <==> updateFails
    ensures status == StatusNotFound <==> !updateFails && id !in old(db.categorias)
    ensures status != StatusOk ==> db.categorias == old(db.categorias)
    ensures status == StatusOk ==>
      id in old(db.categorias) && db.categorias == old(db.categorias)[id := Categoria(nombre, descripcion)]
  {
    if updateFails {
      return StatusServerError;
    }
    var affectedRows := db.UpdateCategoria(id, Categoria(nombre, descripcion));
    if affectedRows == 0 {
      return StatusNotFound;
    }
    status := StatusOk;
  }

  /** DELETE /categorias/{id}: removes the category only; products that reference it
      are neither deleted nor changed. */
  method DeleteCategory(db: Database, id: int, deleteFails: bool) returns (status: int)
    requires db.Valid()
    modifies db`categorias
    ensures db.Valid()
    ensures status in {StatusOk, StatusNotFound, StatusServerError}
    ensures status == StatusServerError <==> deleteFails
    ensures status == StatusNotFound <==> !deleteFails && id !in old(db.categorias)
    ensures status != StatusOk ==> db.categorias == old(db.categorias)
    ensures status == StatusOk ==> id in old(db.categorias) && db.categorias == old(db.categorias) - {id}
    ensures db.productos == old(db.productos)
  {
    if deleteFails {
      return StatusServerError;
    }
    var affectedRows := db.DeleteCategoria(id);
    if affectedRows == 0 {
      return StatusNotFound;
    }
    status := StatusOk;
  }
}
