/** The resolvers seen together as one state machine over the store: each
    request is applied atomically, a failing request leaves the store as it
    was, and the store invariant holds after any sequence of requests. */
module Workflow {
  import opened Errors
  import opened Store
  import UR = UserResolver
  import CR = CodespaceResolver

  datatype Request =
    | GetUserRequest(id: string)
    | CreateUserRequest(signup: UR.CreateUserInput)
    | LoginRequest(email: string, password: string)
    | MeRequest(session: Option<string>)
    | CreateCodespaceRequest(session: Option<string>, form: CR.CreateCodespaceInput)
    | GetCodespaceRequest(session: Option<string>, title: string)
  {
    /** The two operations that insert a document. */
    predicate Inserts() {
      CreateUserRequest? || CreateCodespaceRequest?
    }
  }

  datatype Reply =
    | UserReply(user: User)
    | LoginReply(login: UR.LoginReply)
    | CodespaceReply(codespace: Codespace)

  function AllIds(db: Db): set<Id> {
    UserIds(db) + CodespaceIds(db)
  }

  /** One request against the store. `freshId` is the id the persistence
      layer would give a document inserted by this request. */
  function Step(db: Db, v: Validators, req: Request, freshId: Id): (r: Result<(Db, Reply)>)
    ensures r.Ok? && !req.Inserts() ==> r.value.0 == db
    ensures r.Ok? && req.CreateUserRequest? ==>
      r.value.0.codespaces == db.codespaces && |r.value.0.users| == |db.users| + 1
      && r.value.0.users[..|db.users|] == db.users
    ensures r.Ok? && req.CreateCodespaceRequest? ==>
      r.value.0.users == db.users && |r.value.0.codespaces| == |db.codespaces| + 1
      && r.value.0.codespaces[..|db.codespaces|] == db.codespaces
    ensures r.Ok? ==> AllIds(r.value.0) <= AllIds(db) + {freshId}
  {
    match req
    case GetUserRequest(id) =>
      var u :- UR.GetUser(db, v, id);
      Ok((db, UserReply(u)))
    case CreateUserRequest(input) =>
      var out :- UR.CreateUser(db, v, input, freshId);
      assert out.0.users[..|db.users|] == db.users;
      Ok((out.0, UserReply(out.1)))
    case LoginRequest(email, password) =>
      var l :- UR.Login(db, v, email, password);
      Ok((db, LoginReply(l)))
    case MeRequest(session) =>
      var u :- UR.Me(db, v, session);
      Ok((db, UserReply(u)))
    case CreateCodespaceRequest(session, input) =>
      var out :- CR.CreateCodespace(db, v, session, input, freshId);
      assert out.0.codespaces[..|db.codespaces|] == db.codespaces;
      Ok((out.0, CodespaceReply(out.1)))
    case GetCodespaceRequest(session, title) =>
      var c :- CR.GetCodespace(db, session, title);
      Ok((db, CodespaceReply(c)))
  }

  /** The store after a request: the new store on success, the old one on failure. */
  function Next(db: Db, v: Validators, req: Request, freshId: Id): Db {
    match Step(db, v, req, freshId)
    case Ok(out) => out.0
    case Err(_) => db
  }

  /** Every request, successful or not, keeps the invariant. */
  lemma StepPreservesValid(db: Db, v: Validators, req: Request, freshId: Id)
    requires Valid(v, db) && IsFreshId(v, db, freshId)
    ensures Valid(v, Next(db, v, req, freshId))
  {
    if Step(db, v, req, freshId).Ok? {
      match req
      case CreateUserRequest(input) =>
        UR.CreateUserPreservesValid(db, v, input, freshId);
      case CreateCodespaceRequest(session, input) =>
        CR.CreateCodespacePreservesValid(db, v, session, input, freshId);
      case _ =>
    }
  }

  /** The requests of `reqs` applied in order, the k-th drawing `ids[k]` as
      its fresh id. */
  function Run(db: Db, v: Validators, reqs: seq<Request>, ids: seq<Id>): (r: Db)
    requires |ids| == |reqs|
    ensures AllIds(r) <= AllIds(db) + set k | 0 <= k < |ids| :: ids[k]
    decreases |reqs|
  {
    if |reqs| == 0 then db
    else
      var db' := Next(db, v, reqs[0], ids[0]);
      var r := Run(db', v, reqs[1..], ids[1..]);
      assert AllIds(db') <= AllIds(db) + {ids[0]};
      assert forall k :: 0 <= k < |ids[1..]| ==> ids[1..][k] == ids[k + 1];
      r
  }

  /** Ids the persistence layer hands out: well-formed, pairwise distinct,
      and unused in the starting store. */
  ghost predicate FreshIds(v: Validators, db: Db, ids: seq<Id>) {
    && (forall k :: 0 <= k < |ids| ==> IsFreshId(v, db, ids[k]))
    && (forall k, l :: 0 <= k < l < |ids| ==> ids[k] != ids[l])
  }

  /** The store invariant (unique emails, usernames and titles, valid
      records, existing owners, encoded code) holds after any sequence of
      requests. */
  lemma {:induction false} RunPreservesValid(db: Db, v: Validators, reqs: seq<Request>, ids: seq<Id>)
    requires |ids| == |reqs|
    requires Valid(v, db) && FreshIds(v, db, ids)
    ensures Valid(v, Run(db, v, reqs, ids))
    decreases |reqs|
  {
    if |reqs| > 0 {
      var db' := Next(db, v, reqs[0], ids[0]);
      StepPreservesValid(db, v, reqs[0], ids[0]);
      assert AllIds(db') <= AllIds(db) + {ids[0]};
      forall k | 0 <= k < |ids[1..]| ensures IsFreshId(v, db', ids[1..][k]) {
        assert ids[1..][k] == ids[k + 1];
        assert ids[k + 1] != ids[0];
        assert ids[k + 1] !in AllIds(db);
      }
      RunPreservesValid(db', v, reqs[1..], ids[1..]);
    }
  }
}
