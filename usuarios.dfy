/** The account handlers of backend/src/controllers/usuarios.controller.js.
    Emails and passwords are compared as exact strings. The signed JWT is
    modelled by the claims it carries and its lifetime; signing itself and
    the secret it uses are not part of this model. */
module Usuarios {
  import opened Schema
  import opened Store

  /** `expiresIn: '1h'`, in seconds. */
  const TokenLifetimeSeconds: int := 3600

  /** The claims `{ id, email }` of the issued token and its lifetime. */
  datatype Token = Token(id: int, email: string, expiresInSeconds: int)

  /** `SELECT * FROM usuarios WHERE email = ?` returns at least one row. */
  predicate EmailTaken(usuarios: map<int, Usuario>, email: string)
  {
    exists id :: id in usuarios && usuarios[id].email == email
  }

  /** No two accounts share an email. */
  ghost predicate UniqueEmails(usuarios: map<int, Usuario>)
  {
    forall a, b :: a in usuarios && b in usuarios && a != b ==> usuarios[a].email != usuarios[b].email
  }

  /** POST /usuarios: refuse a registered email with 400, otherwise insert the account. */
  method CreateUser(
    db: Database, nombre: string, email: string, contrasena: string, lookupFails: bool, insertFails: bool)
    returns (r: Reply<int>)
    requires db.Valid()
    modifies db`usuarios, db`nextUsuarioId
    ensures db.Valid()
    ensures r.status in {StatusCreated, StatusBadRequest, StatusServerError}
    ensures r.status == StatusServerError <==> lookupFails || (!EmailTaken(old(db.usuarios), email) && insertFails)
    ensures r.status == StatusBadRequest <==> !lookupFails && EmailTaken(old(db.usuarios), email)
    ensures r.status != StatusCreated ==>
      r.body.None? && db.usuarios == old(db.usuarios) && db.nextUsuarioId == old(db.nextUsuarioId)
    ensures r.status == StatusCreated ==>
      && r.body.Some? && r.body.value !in old(db.usuarios)
      && db.usuarios == old(db.usuarios)[r.body.value := Usuario(nombre, email, contrasena)]
    ensures UniqueEmails(old(db.usuarios)) ==> UniqueEmails(db.usuarios)
  {
    if lookupFails {
      return Reply(StatusServerError, None);
    }
    if EmailTaken(db.usuarios, email) {
      return Reply(StatusBadRequest, None);
    }
    if insertFails {
      return Reply(StatusServerError, None);
    }
    var insertId := db.InsertUsuario(Usuario(nombre, email, contrasena));
    r := Reply(StatusCreated, Some(insertId));
  }

  /** Ids of the rows `SELECT * FROM usuarios WHERE email = ? AND contrasena = ?` returns. */
  function Matching(usuarios: map<int, Usuario>, email: string, contrasena: string): set<int>
  {
    set id | id in usuarios && usuarios[id].email == email && usuarios[id].contrasena == contrasena
  }

  /** Every non-empty set of ids has a least element. */
  lemma {:induction false} LeastExists(ids: set<int>)
    requires ids != {}
    ensures exists m :: m in ids && forall j :: j in ids ==> m <= j
    decreases |ids|
  {
    if forall k: int :: k !in ids {
      assert false;
    }
    var x :| x in ids;
    var rest := ids - {x};
    if forall k: int :: k !in rest {
      forall j | j in ids
        ensures x <= j
      {
        assert j !in rest;
        assert j == x;
      }
      assert x in ids;
    } else {
      LeastExists(rest);
      var m :| m in rest && forall j :: j in rest ==> m <= j;
      if x < m {
        forall j | j in ids
          ensures x <= j
        {
          if j != x { assert j in rest; }
        }
      } else {
        forall j | j in ids
          ensures m <= j
        {
          if j != x { assert j in rest; }
        }
        assert m in ids;
      }
    }
  }

  /** The smallest id of a non-empty set: the row `results[0]` is taken to be. */
  function LeastId(ids: set<int>): (m: int)
    requires ids != {}
    ensures m in ids
    ensures forall j :: j in ids ==> m <= j
  {
    LeastExists(ids);
    var m :| m in ids && forall j :: j in ids ==> m <= j;
    m
  }

  /** POST /usuarios/login: 400 unless some account has exactly this email and password;
      otherwise a one-hour token with that account's id and email. Reads only. */
  function LoginUser(usuarios: map<int, Usuario>, email: string, contrasena: string, queryFails: bool)
    : (r: Reply<Token>)
    ensures queryFails ==> r == Reply(StatusServerError, None)
    ensures !queryFails ==> (r.status == StatusBadRequest <==>
      forall id :: id in usuarios ==> !(usuarios[id].email == email && usuarios[id].contrasena == contrasena))
    ensures !queryFails && r.status != StatusBadRequest ==>
      && r.status == StatusOk && r.body.Some?
      && r.body.value.id in usuarios
      && usuarios[r.body.value.id].email == email && usuarios[r.body.value.id].contrasena == contrasena
      && r.body.value.email == email
      && r.body.value.expiresInSeconds == TokenLifetimeSeconds
    ensures r.status != StatusOk ==> r.body.None?
  {
    if queryFails then Reply(StatusServerError, None)
    else
      var found := Matching(usuarios, email, contrasena);
      if found == {} then
        assert forall id :: id in usuarios ==> (usuarios[id].email == email && usuarios[id].contrasena == contrasena
                                                ==> id in found);
        Reply(StatusBadRequest, None)
      else
        var id := LeastId(found);
        Reply(StatusOk, Some(Token(id, usuarios[id].email, TokenLifetimeSeconds)))
  }

  /** With unique emails, a successful login identifies the one account holding that email. */
  lemma LoginNamesTheAccount(usuarios: map<int, Usuario>, id: int, contrasena: string)
    requires UniqueEmails(usuarios)
    requires id in usuarios && usuarios[id].contrasena == contrasena
    ensures LoginUser(usuarios, usuarios[id].email, contrasena, false)
         == Reply(StatusOk, Some(Token(id, usuarios[id].email, TokenLifetimeSeconds)))
  {
  }
}
