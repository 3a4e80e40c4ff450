/** Row types of the three tables `categorias`, `productos` and `usuarios`,
    and the shape of what a request handler sends back. */
module Schema {

  datatype Option<T> = None | Some(value: T)

  /** HTTP status codes the handlers send. */
  const StatusOk: int := 200
  const StatusCreated: int := 201
  const StatusBadRequest: int := 400
  const StatusNotFound: int := 404
  const StatusServerError: int := 500

  /** A response: its status and, when the handler sends one, the JSON body's value.
      Error bodies (`{ message }`, `{ error }`) are not modelled: they carry text only. */
  datatype Reply<T> = Reply(status: int, body: Option<T>)

  /** Prices are numbers the system stores and shows but never computes with. */
  type Price = real

  /** A row of `categorias`, without its id column. */
  datatype Categoria = Categoria(nombre: string, descripcion: string)

  /** A row of `productos`, without its id column; `imagen` is a nullable filename. */
  datatype Producto = Producto(
    nombre: string,
    descripcion: string,
    precio: Price,
    categoriaId: int,
    imagen: Option<string>)

  /** A row of `usuarios`, without its id column; the password is stored as given. */
  datatype Usuario = Usuario(nombre: string, email: string, contrasena: string)

  /** A row as `SELECT *` returns it: the id column together with the other columns. */
  datatype Entry<T> = Entry(id: int, row: T)
}
