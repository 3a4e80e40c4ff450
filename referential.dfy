/** What the category check before product writes does and does not guarantee
    across the `categorias` and `productos` tables. */
module Referential {
  import opened Schema
  import opened Store
  import Productos
  import LegacyProductos
  import Categorias

  /** While every reference is valid, the joined listing shows every product. */
  lemma ValidReferencesListEverything(categorias: map<int, Categoria>, productos: map<int, Producto>, id: int)
    requires ReferencesValid(categorias, productos)
    requires id in productos
    ensures Productos.JoinedRow(categorias, productos, id)
         in Productos.GetAllProducts(categorias, productos, false).body.value
  {
  }

  /** The check is made only at write time: deleting a category leaves its products pointing
      at nothing, since the delete neither cascades nor is refused. */
  lemma DeleteCategoryCanBreakReferences()
    ensures var categorias := map[1 := Categoria("Juguetes", "")];
            var productos := map[1 := Producto("Oso", "", 19.99, 1, None)];
            ReferencesValid(categorias, productos) && !ReferencesValid(categorias - {1}, productos)
  {
    var categorias := map[1 := Categoria("Juguetes", "")];
    var productos := map[1 := Producto("Oso", "", 19.99, 1, None)];
    assert 1 in productos && productos[1].categoriaId !in categorias - {1};
  }

  /** After its category is deleted, a product is still returned by id, raw, but disappears
      from both joined listings and from its category's listing. */
  lemma OrphanedProductVisibility(
    categorias: map<int, Categoria>, productos: map<int, Producto>, categoriaId: int, productId: int)
    requires productId in productos && productos[productId].categoriaId == categoriaId
    ensures Productos.GetProductById(productos, productId, false)
         == Reply(StatusOk, Some(Entry(productId, productos[productId])))
    ensures forall v :: v in Productos.GetAllProducts(categorias - {categoriaId}, productos, false).body.value ==>
                          v.id != productId
    ensures forall v :: v in LegacyProductos.GetAllProducts(categorias - {categoriaId}, productos, false).body.value ==>
                          v.id != productId
    ensures Productos.GetProductsByCategory(categorias - {categoriaId}, productos, categoriaId, false).body == Some({})
  {
  }

  /** The end-to-end run: create the category "Juguetes", then the product "Oso" in it; the
      joined listing then tags that product with the category's name. */
  method JuguetesScenario() returns (productId: int, listado: set<Productos.ListedProduct>)
    ensures exists v :: v in listado && v.id == productId && v.nombre == "Oso" && v.categoriaNombre == "Juguetes"
  {
    var db := new Database();
    var categoria := Categorias.CreateCategory(db, "Juguetes", "Juguetes para todas las edades", false);
    var categoriaId := categoria.body.value;
    var producto := Productos.CreateProduct(db, "Oso", "Oso de peluche", 19.99, categoriaId, None, false, false);
    productId := producto.body.value;
    var reply := Productos.GetAllProducts(db.categorias, db.productos, false);
    listado := reply.body.value;
    assert Productos.Joins(db.categorias, db.productos, productId);
    assert Productos.JoinedRow(db.categorias, db.productos, productId) in listado;
  }
}
