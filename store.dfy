/** The relational store behind the controllers: three tables keyed by id,
    each with its own AUTO_INCREMENT counter that supplies `insertId`.
    Each method models one SQL statement the controllers issue; reads are
    made directly on the table fields by the handlers' functions. */
module Store {
  import opened Schema

  class Database {
    var categorias: map<int, Categoria>
    var productos: map<int, Producto>
    var usuarios: map<int, Usuario>
    /** The next value each table's AUTO_INCREMENT column hands out. */
    var nextCategoriaId: int
    var nextProductoId: int
    var nextUsuarioId: int

    /** Every id in use is below its table's counter, so the counter is always a fresh id. */
    ghost predicate Valid()
      reads this
    {
      && (forall id :: id in categorias ==> id < nextCategoriaId)
      && (forall id :: id in productos ==> id < nextProductoId)
      && (forall id :: id in usuarios ==> id < nextUsuarioId)
    }

    /** Empty tables whose AUTO_INCREMENT counters start at 1. */
    constructor ()
      ensures Valid()
      ensures categorias == map[] && productos == map[] && usuarios == map[]
      ensures nextCategoriaId == 1 && nextProductoId == 1 && nextUsuarioId == 1
    {
      categorias, productos, usuarios := map[], map[], map[];
      nextCategoriaId, nextProductoId, nextUsuarioId := 1, 1, 1;
    }

    /** `INSERT INTO categorias (nombre, descripcion) VALUES (?, ?)`. */
    method InsertCategoria(row: Categoria) returns (insertId: int)
      requires Valid()
      modifies this`categorias, this`nextCategoriaId
      ensures Valid()
      ensures insertId == old(nextCategoriaId) && insertId !in old(categorias)
      ensures categorias == old(categorias)[insertId := row]
      ensures nextCategoriaId == old(nextCategoriaId) + 1
    {
      insertId := nextCategoriaId;
      categorias := categorias[insertId := row];
      nextCategoriaId := nextCategoriaId + 1;
    }

    /** `UPDATE categorias SET nombre = ?, descripcion = ? WHERE id = ?`; the driver
        reports matched rows as `affectedRows`. */
    method UpdateCategoria(id: int, row: Categoria) returns (affectedRows: nat)
      requires Valid()
      modifies this`categorias
      ensures Valid()
      ensures affectedRows == if id in old(categorias) then 1 else 0
      ensures categorias == if id in old(categorias) then old(categorias)[id := row] else old(categorias)
    {
      if id in categorias {
        categorias := categorias[id := row];
        affectedRows := 1;
      } else {
        affectedRows := 0;
      }
    }

    /** `DELETE FROM categorias WHERE id = ?`. No foreign-key action touches `productos`. */
    method DeleteCategoria(id: int) returns (affectedRows: nat)
      requires Valid()
      modifies this`categorias
      ensures Valid()
      ensures affectedRows == if id in old(categorias) then 1 else 0
      ensures categorias == old(categorias) - {id}
    {
      affectedRows := if id in categorias then 1 else 0;
      categorias := categorias - {id};
    }

    /** `INSERT INTO productos (...) VALUES (...)` with every column given. */
    method InsertProducto(row: Producto) returns (insertId: int)
      requires Valid()
      modifies this`productos, this`nextProductoId
      ensures Valid()
      ensures insertId == old(nextProductoId) && insertId !in old(productos)
      ensures productos == old(productos)[insertId := row]
      ensures nextProductoId == old(nextProductoId) + 1
    {
      insertId := nextProductoId;
      productos := productos[insertId := row];
      nextProductoId := nextProductoId + 1;
    }

    /** `UPDATE productos SET nombre = ?, descripcion = ?, precio = ?, categoria_id = ?, imagen = ? WHERE id = ?`. */
    method UpdateProducto(id: int, row: Producto) returns (affectedRows: nat)
      requires Valid()
      modifies this`productos
      ensures Valid()
      ensures affectedRows == if id in old(productos) then 1 else 0
      ensures productos == if id in old(productos) then old(productos)[id := row] else old(productos)
    {
      if id in productos {
        productos := productos[id := row];
        affectedRows := 1;
      } else {
        affectedRows := 0;
      }
    }

    /** `UPDATE productos SET nombre = ?, descripcion = ?, precio = ?, categoria_id = ? WHERE id = ?`:
        the four columns are overwritten and `imagen` keeps its value. */
    method UpdateProductoColumns(id: int, nombre: string, descripcion: string, precio: Price, categoriaId: int)
      returns (affectedRows: nat)
      requires Valid()
      modifies this`productos
      ensures Valid()
      ensures affectedRows == if id in old(productos) then 1 else 0
      ensures id !in old(productos) ==> productos == old(productos)
      ensures id in old(productos) ==>
        productos == old(productos)[id := Producto(nombre, descripcion, precio, categoriaId, old(productos)[id].imagen)]
    {
      if id in productos {
        productos := productos[id := Producto(nombre, descripcion, precio, categoriaId, productos[id].imagen)];
        affectedRows := 1;
      } else {
        affectedRows := 0;
      }
    }

    /** `DELETE FROM productos WHERE id = ?`. */
    method DeleteProducto(id: int) returns (affectedRows: nat)
      requires Valid()
      modifies this`productos
      ensures Valid()
      ensures affectedRows == if id in old(productos) then 1 else 0
      ensures productos == old(productos) - {id}
    {
      affectedRows := if id in productos then 1 else 0;
      productos := productos - {id};
    }

    /** `INSERT INTO usuarios (nombre, email, contrasena) VALUES (?, ?, ?)`. */
    method InsertUsuario(row: Usuario) returns (insertId: int)
      requires Valid()
      modifies this`usuarios, this`nextUsuarioId
      ensures Valid()
      ensures insertId == old(nextUsuarioId) && insertId !in old(usuarios)
      ensures usuarios == old(usuarios)[insertId := row]
      ensures nextUsuarioId == old(nextUsuarioId) + 1
    {
      insertId := nextUsuarioId;
      usuarios := usuarios[insertId := row];
      nextUsuarioId := nextUsuarioId + 1;
    }
  }

  /** Every product names an existing category: the rule the product writes check
      (`SELECT * FROM categorias WHERE id = ?` before writing) and the category delete does not. */
  ghost predicate ReferencesValid(categorias: map<int, Categoria>, productos: map<int, Producto>)
  {
    forall id :: id in productos ==> productos[id].categoriaId in categorias
  }

  /** A product write that passed the category check keeps every reference valid. */
  lemma CheckedWriteKeepsReferences(
    categorias: map<int, Categoria>, productos: map<int, Producto>, id: int, row: Producto)
    requires ReferencesValid(categorias, productos)
    requires row.categoriaId in categorias
    ensures ReferencesValid(categorias, productos[id := row])
  {
  }
}
