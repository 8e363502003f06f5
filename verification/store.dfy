/** The two document collections, Users and Codespaces, as immutable
    sequences in insertion order, with the exact-match `findOne` lookup the
    resolvers use and the invariants the workflows keep. */
module Store {
  import opened Errors
  import opened JsString
  import Base64

  /** A document identifier, in its string form (a hexadecimal object id). */
  type Id = string

  /** A stored account. Passwords are stored and compared as given. */
  datatype User = User(id: Id, name: string, username: string, email: string, password: string)

  /** A stored code snippet; `code` holds the encoded form and `owner` the
      creating user's id. The counters start at zero. */
  datatype Codespace = Codespace(
    id: Id,
    title: string,
    description: string,
    code: string,
    language: string,
    owner: Id,
    stars: nat,
    views: nat,
    downloads: nat,
    contributors: nat,
    commits: nat)

  datatype Db = Db(users: seq<User>, codespaces: seq<Codespace>)

  /** The library functions the resolvers call and this model does not
      define: `isEmail` from class-validator; the object-id syntax check
      (`ObjectId.isValid`, which is also what decides whether a lookup key can
      be cast to an `_id`); and that cast itself, read back as the id's
      string form. The cast is not the identity: upper-case hex, for one,
      becomes the lower-case string every stored id has. */
  datatype Validators = Validators(isEmail: string -> bool, isObjectId: string -> bool, castId: string -> Id)

  // ---------------------------------------------------------------- findOne

  /** Position of the first element satisfying `p`, the document `findOne`
      returns in natural order. */
  function FirstMatch<T>(s: seq<T>, p: T -> bool): (r: Option<nat>)
    ensures r.Some? ==> r.value < |s| && p(s[r.value])
    ensures r.Some? ==> forall j :: 0 <= j < r.value ==> !p(s[j])
    ensures r.None? <==> forall j :: 0 <= j < |s| ==> !p(s[j])
  {
    if |s| == 0 then None
    else if p(s[0]) then Some(0)
    else
      match FirstMatch(s[1..], p)
      case None => None
      case Some(k) => Some(k + 1)
  }

  /** `findOne` over a collection: the first element satisfying `p`. */
  function FindOne<T>(s: seq<T>, p: T -> bool): (r: Option<T>)
    ensures r.Some? ==> r.value in s && p(r.value)
    ensures r.None? <==> forall x :: x in s ==> !p(x)
  {
    match FirstMatch(s, p)
    case None => None
    case Some(k) => Some(s[k])
  }

  function UserIds(db: Db): set<Id> {
    set u | u in db.users :: u.id
  }

  function CodespaceIds(db: Db): set<Id> {
    set c | c in db.codespaces :: c.id
  }

  /** An id in the string form the persistence layer gives an `_id`: a
      well-formed object id that its own cast leaves unchanged. */
  predicate IsCanonicalId(v: Validators, id: Id) {
    v.isObjectId(id) && v.castId(id) == id
  }

  /** An id the persistence layer may hand to a new document: a canonical
      object id that no stored document carries. */
  predicate IsFreshId(v: Validators, db: Db, id: Id) {
    IsCanonicalId(v, id) && id !in UserIds(db) && id !in CodespaceIds(db)
  }

  // ---------------------------------------------------------------- invariants

  /** No two accounts share an id, an email or a username. */
  ghost predicate UniqueAccounts(users: seq<User>) {
    forall i, j :: 0 <= i < j < |users| ==>
      && users[i].id != users[j].id
      && users[i].email != users[j].email
      && users[i].username != users[j].username
  }

  /** No two codespaces share an id or a title, whoever owns them. */
  ghost predicate UniqueCodespaces(codespaces: seq<Codespace>) {
    forall i, j :: 0 <= i < j < |codespaces| ==>
      && codespaces[i].id != codespaces[j].id
      && codespaces[i].title != codespaces[j].title
  }

  /** A stored account carries a canonical object id and passed the sign-up
      validation. */
  ghost predicate IsValidAccount(v: Validators, u: User) {
    && IsCanonicalId(v, u.id)
    && u.name != ""
    && v.isEmail(u.email)
    && 3 <= Utf16Length(u.username) <= 20
    && 6 <= Utf16Length(u.password) <= 50
  }

  /** A stored codespace passed creation: its title is trimmed and 3..50
      code units long, its code is in encoded form, its owner exists. */
  ghost predicate IsValidCodespace(db: Db, c: Codespace) {
    && Trim(c.title) == c.title
    && 3 <= Utf16Length(c.title) <= 50
    && Base64.IsCanonical(c.code)
    && c.owner in UserIds(db)
  }

  /** The invariant every workflow step keeps. */
  ghost predicate Valid(v: Validators, db: Db) {
    && UniqueAccounts(db.users)
    && UniqueCodespaces(db.codespaces)
    && (forall u :: u in db.users ==> IsValidAccount(v, u))
    && (forall c :: c in db.codespaces ==> IsValidCodespace(db, c))
  }

  /** Under the invariant an email names at most one account. */
  lemma EmailNamesOneAccount(v: Validators, db: Db, a: User, b: User)
    requires Valid(v, db)
    requires a in db.users && b in db.users && a.email == b.email
    ensures a == b
  {
    var i :| 0 <= i < |db.users| && db.users[i] == a;
    var j :| 0 <= j < |db.users| && db.users[j] == b;
    assert i == j;
  }

  /** Under the invariant an id names at most one account, so the `findOne`
      by `_id` does not depend on the order documents are read in. */
  lemma IdNamesOneAccount(v: Validators, db: Db, a: User, b: User)
    requires Valid(v, db)
    requires a in db.users && b in db.users && a.id == b.id
    ensures a == b
  {
    var i :| 0 <= i < |db.users| && db.users[i] == a;
    var j :| 0 <= j < |db.users| && db.users[j] == b;
    assert i == j;
  }

  /** Under the invariant a title names at most one codespace, whoever owns
      it, so the `findOne` by title (and by title and owner) does not depend
      on the order documents are read in. */
  lemma TitleNamesOneCodespace(v: Validators, db: Db, a: Codespace, b: Codespace)
    requires Valid(v, db)
    requires a in db.codespaces && b in db.codespaces && a.title == b.title
    ensures a == b
  {
    var i :| 0 <= i < |db.codespaces| && db.codespaces[i] == a;
    var j :| 0 <= j < |db.codespaces| && db.codespaces[j] == b;
    assert i == j;
  }
}
