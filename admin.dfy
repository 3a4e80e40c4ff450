/** The admin page's in-browser product list of scripts/admin.js: the module-level
    `productos` array that `guardarProducto` and `eliminarProducto` change in place.
    The page's rendering and the copy kept in localStorage are not part of this model. */
module Admin {
  import opened Schema

  /** A product of the browser-side list; `imagen` is a data URL, "" when there is none. */
  datatype Item = Item(id: int, nombre: string, precio: Price, categoria: string, imagen: string)

  /** Ids grow strictly along the list, as repeated creation from an empty list makes them. */
  predicate StrictlyIncreasing(s: seq<Item>)
  {
    forall i, j :: 0 <= i < j < |s| ==> s[i].id < s[j].id
  }

  /** No two positions hold the same id. */
  predicate UniqueIds(s: seq<Item>)
  {
    forall i, j :: 0 <= i < |s| && 0 <= j < |s| && i != j ==> s[i].id != s[j].id
  }

  /** Strictly increasing ids are unique ids: the uniqueness the create branch relies on. */
  lemma IncreasingIdsAreUnique(s: seq<Item>)
    requires StrictlyIncreasing(s)
    ensures UniqueIds(s)
  {
  }

  /** The id a new product gets: one more than the last product's, or 1 for an empty list. */
  function NextId(s: seq<Item>): (r: int)
    ensures StrictlyIncreasing(s) ==> forall i :: 0 <= i < |s| ==> s[i].id < r
    ensures |s| == 0 ==> r == 1
  {
    if |s| > 0 then s[|s| - 1].id + 1 else 1
  }

  /** `productos.findIndex(p => p.id === id)`: the first position holding `id`, or -1. */
  function IndexOfId(s: seq<Item>, id: int): (r: int)
    ensures -1 <= r < |s|
    ensures r == -1 <==> forall i :: 0 <= i < |s| ==> s[i].id != id
    ensures r >= 0 ==> s[r].id == id && forall i :: 0 <= i < r ==> s[i].id != id
  {
    if |s| == 0 then -1
    else if s[0].id == id then 0
    else
      var k := IndexOfId(s[1..], id);
      if k == -1 then -1 else k + 1
  }

  /** `productos.filter(p => p.id !== id)`: the list without every product holding `id`. */
  function WithoutId(s: seq<Item>, id: int): (r: seq<Item>)
    ensures |r| <= |s|
    ensures forall i :: 0 <= i < |r| ==> r[i].id != id
  {
    if |s| == 0 then []
    else if s[0].id != id then [s[0]] + WithoutId(s[1..], id)
    else WithoutId(s[1..], id)
  }

  /** Deleting an id that is not in the list leaves the list as it was. */
  lemma {:induction false} WithoutAbsentId(s: seq<Item>, id: int)
    requires forall i :: 0 <= i < |s| ==> s[i].id != id
    ensures WithoutId(s, id) == s
  {
    if |s| > 0 {
      WithoutAbsentId(s[1..], id);
      assert s == [s[0]] + s[1..];
    }
  }

  /** Filtering works piecewise, so the products that remain keep their relative order. */
  lemma {:induction false} WithoutIdDistributes(a: seq<Item>, b: seq<Item>, id: int)
    ensures WithoutId(a + b, id) == WithoutId(a, id) + WithoutId(b, id)
  {
    if |a| == 0 {
      assert a + b == b;
    } else {
      var ab := a + b;
      assert ab[0] == a[0];
      assert ab[1..] == a[1..] + b;
      WithoutIdDistributes(a[1..], b, id);
      var tail := WithoutId(a[1..], id);
      if a[0].id != id {
        assert WithoutId(ab, id) == [a[0]] + WithoutId(ab[1..], id);
        assert WithoutId(a, id) == [a[0]] + tail;
        assert [a[0]] + (tail + WithoutId(b, id)) == ([a[0]] + tail) + WithoutId(b, id);
      } else {
        assert WithoutId(ab, id) == WithoutId(ab[1..], id);
        assert WithoutId(a, id) == tail;
      }
    }
  }

  /** A product survives the filter exactly when it was in the list with another id. */
  lemma {:induction false} WithoutIdMembers(s: seq<Item>, id: int, p: Item)
    ensures p in WithoutId(s, id) <==> p in s && p.id != id
  {
    if |s| > 0 {
      WithoutIdMembers(s[1..], id, p);
      assert s == [s[0]] + s[1..];
    }
  }

  /** Deleting keeps the ids strictly increasing. */
  lemma {:induction false} WithoutIdKeepsIncreasing(s: seq<Item>, id: int)
    requires StrictlyIncreasing(s)
    ensures StrictlyIncreasing(WithoutId(s, id))
  {
    if |s| > 0 {
      var tail := s[1..];
      assert StrictlyIncreasing(tail);
      WithoutIdKeepsIncreasing(tail, id);
      var rest := WithoutId(tail, id);
      if s[0].id != id {
        var r := [s[0]] + rest;
        assert WithoutId(s, id) == r;
        forall i, j | 0 <= i < j < |r|
          ensures r[i].id < r[j].id
        {
          if i == 0 {
            assert rest[j - 1] in rest;
            WithoutIdMembers(tail, id, rest[j - 1]);
            var k :| 0 <= k < |tail| && tail[k] == rest[j - 1];
            assert s[k + 1] == rest[j - 1];
          } else {
            assert r[i] == rest[i - 1] && r[j] == rest[j - 1];
          }
        }
      } else {
        assert WithoutId(s, id) == rest;
      }
    }
  }

  /** Appending a product with `NextId` keeps the ids strictly increasing. */
  lemma AppendNextKeepsIncreasing(s: seq<Item>, p: Item)
    requires StrictlyIncreasing(s) && p.id == NextId(s)
    ensures StrictlyIncreasing(s + [p])
  {
  }

  /** Replacing a product by one with the same id leaves the id sequence as it was. */
  lemma ReplaceSameIdKeepsIncreasing(s: seq<Item>, i: int, p: Item)
    requires 0 <= i < |s| && p.id == s[i].id
    requires StrictlyIncreasing(s)
    ensures StrictlyIncreasing(s[i := p])
  {
  }

  /** The image an edited product ends up with: the new one, or the old one when none was chosen. */
  function KeptImage(nueva: string, anterior: string): (r: string)
    ensures nueva != "" ==> r == nueva
    ensures nueva == "" ==> r == anterior
  {
    if nueva != "" then nueva else anterior
  }

  class ProductList {
    var productos: seq<Item>

    /** `JSON.parse(localStorage.getItem('productos')) || []`: what was stored, or an empty list. */
    constructor (stored: Option<seq<Item>>)
      ensures productos == if stored.Some? then stored.value else []
    {
      productos := if stored.Some? then stored.value else [];
    }

    /** The create branch of `guardarProducto`: append a product with the next id. */
    method CrearProducto(nombre: string, precio: Price, categoria: string, imagenBase64: string)
      returns (nuevoId: int)
      modifies this
      ensures nuevoId == NextId(old(productos))
      ensures productos == old(productos) + [Item(nuevoId, nombre, precio, categoria, imagenBase64)]
      ensures StrictlyIncreasing(old(productos)) ==> StrictlyIncreasing(productos) && UniqueIds(productos)
    {
      nuevoId := NextId(productos);
      var nuevo := Item(nuevoId, nombre, precio, categoria, imagenBase64);
      if StrictlyIncreasing(productos) {
        AppendNextKeepsIncreasing(productos, nuevo);
        IncreasingIdsAreUnique(productos + [nuevo]);
      }
      productos := productos + [nuevo];
    }

    /** The update branch of `guardarProducto`: overwrite the first product holding `idProducto`,
        keeping its image when no new one was chosen. */
    method ActualizarProducto(idProducto: int, nombre: string, precio: Price, categoria: string, imagenBase64: string)
      returns (indice: int)
      requires IndexOfId(productos, idProducto) >= 0
      modifies this
      ensures indice == IndexOfId(old(productos), idProducto)
      ensures 0 <= indice < |old(productos)|
      ensures productos == old(productos)[indice :=
        Item(idProducto, nombre, precio, categoria, KeptImage(imagenBase64, old(productos)[indice].imagen))]
      ensures StrictlyIncreasing(old(productos)) ==> StrictlyIncreasing(productos) && UniqueIds(productos)
    {
      indice := IndexOfId(productos, idProducto);
      var imagen := KeptImage(imagenBase64, productos[indice].imagen);
      var nuevo := Item(idProducto, nombre, precio, categoria, imagen);
      if StrictlyIncreasing(productos) {
        ReplaceSameIdKeepsIncreasing(productos, indice, nuevo);
        IncreasingIdsAreUnique(productos[indice := nuevo]);
      }
      productos := productos[indice := nuevo];
    }

    /** `guardarProducto`: update when the form carries an id, create otherwise. */
    method GuardarProducto(idProducto: Option<int>, nombre: string, precio: Price, categoria: string, imagenBase64: string)
      requires idProducto.Some? ==> IndexOfId(productos, idProducto.value) >= 0
      modifies this
      ensures idProducto.None? ==>
        productos == old(productos) + [Item(NextId(old(productos)), nombre, precio, categoria, imagenBase64)]
      ensures idProducto.Some? ==>
        var i := IndexOfId(old(productos), idProducto.value);
        0 <= i < |old(productos)| &&
        productos == old(productos)[i :=
          Item(idProducto.value, nombre, precio, categoria, KeptImage(imagenBase64, old(productos)[i].imagen))]
      ensures StrictlyIncreasing(old(productos)) ==> StrictlyIncreasing(productos)
    {
      if idProducto.Some? {
        var _ := ActualizarProducto(idProducto.value, nombre, precio, categoria, imagenBase64);
      } else {
        var _ := CrearProducto(nombre, precio, categoria, imagenBase64);
      }
    }

    /** `eliminarProducto`: drop every product holding `idProducto`, keeping the others in order. */
    method EliminarProducto(idProducto: int)
      modifies this
      ensures productos == WithoutId(old(productos), idProducto)
      ensures forall p :: p in productos <==> p in old(productos) && p.id != idProducto
      ensures (forall i :: 0 <= i < |old(productos)| ==> old(productos)[i].id != idProducto) ==>
        productos == old(productos)
      ensures StrictlyIncreasing(old(productos)) ==> StrictlyIncreasing(productos) && UniqueIds(productos)
    {
      if forall i :: 0 <= i < |productos| ==> productos[i].id != idProducto {
        WithoutAbsentId(productos, idProducto);
      }
      forall p
        ensures p in WithoutId(productos, idProducto) <==> p in productos && p.id != idProducto
      {
        WithoutIdMembers(productos, idProducto, p);
      }
      if StrictlyIncreasing(productos) {
        WithoutIdKeepsIncreasing(productos, idProducto);
        IncreasingIdsAreUnique(WithoutId(productos, idProducto));
      }
      productos := WithoutId(productos, idProducto);
    }
  }
}
