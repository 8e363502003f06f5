/** The Codespace resolver of `src/resolvers/Codespace.resolver.ts`:
    `createCodespace` and `getCodespace`. Both need the "userId" session
    cookie before anything else; creation stores the trimmed title, the
    session user as owner and the code in encoded form. */
module CodespaceResolver {
  import opened Errors
  import opened JsString
  import opened Store
  import Utils

  /** The creation form; an empty string is a missing field, and an absent
      description takes the schema default "". */
  datatype CreateCodespaceInput = CreateCodespaceInput(
    title: string,
    description: Option<string>,
    code: string,
    language: string)

  /** The request carries a non-empty session cookie. */
  predicate HasSession(session: Option<string>) {
    session.Some? && session.value != ""
  }

  predicate HasAllFields(input: CreateCodespaceInput) {
    input.title != "" && input.code != "" && input.language != ""
  }

  predicate TitleLengthOk(title: string) {
    3 <= Utf16Length(title) <= 50
  }

  /** Every check before the first lookup passes. */
  ghost predicate IsAcceptableCreation(session: Option<string>, input: CreateCodespaceInput) {
    HasSession(session) && HasAllFields(input) && TitleLengthOk(Trim(input.title))
  }

  ghost predicate UserExists(db: Db, id: Id) {
    exists u :: u in db.users && u.id == id
  }

  /** Some codespace already has this title, whoever owns it. */
  ghost predicate TitleTaken(db: Db, title: string) {
    exists c :: c in db.codespaces && c.title == title
  }

  function DescriptionOrDefault(description: Option<string>): string {
    match description
    case None => ""
    case Some(d) => d
  }

  /** `createCodespace(input)`: session, required fields, trimmed title
      length, the account the session key casts to, then title uniqueness
      across all owners; on success the codespace is appended with zeroed
      counters and the account's own id, not the session key, as owner. */
  function CreateCodespace(db: Db, v: Validators, session: Option<string>, input: CreateCodespaceInput, newId: Id)
    : (r: Result<(Db, Codespace)>)
    ensures !HasSession(session) ==> r == Err(ResolverError("Session expired", SessionExpired, []))
    ensures HasSession(session) && !HasAllFields(input) ==>
      r == Err(ResolverError("Title, code or language is missing", InvalidCodespaceInput, []))
    ensures HasSession(session) && HasAllFields(input) && !TitleLengthOk(Trim(input.title)) ==>
      r == Err(ResolverError("Title must be between 3 and 50.", InvalidCodespaceInput, []))
    ensures IsAcceptableCreation(session, input) && !v.isObjectId(session.value) ==>
      r == Err(CastError(session.value))
    ensures IsAcceptableCreation(session, input) && v.isObjectId(session.value)
            && !UserExists(db, v.castId(session.value)) ==>
      r == Err(ResolverError("Something went wrong", SomethingWentWrong, []))
    ensures IsAcceptableCreation(session, input) && v.isObjectId(session.value)
            && UserExists(db, v.castId(session.value)) && TitleTaken(db, Trim(input.title)) ==>
      r == Err(ResolverError("Codespace already exists", CodespaceAlreadyExists, []))
    ensures r.Ok? <==>
      && IsAcceptableCreation(session, input) && v.isObjectId(session.value)
      && UserExists(db, v.castId(session.value)) && !TitleTaken(db, Trim(input.title))
    ensures r.Ok? ==> r.value.1 == Codespace(newId, Trim(input.title), DescriptionOrDefault(input.description),
                                            Utils.Encode(input.code), input.language, v.castId(session.value),
                                            0, 0, 0, 0, 0)
    ensures r.Ok? ==> r.value.0 == Db(db.users, db.codespaces + [r.value.1])
  {
    if !HasSession(session) then Fail("Session expired", SessionExpired)
    else if !HasAllFields(input) then Fail("Title, code or language is missing", InvalidCodespaceInput)
    else
      var title := Trim(input.title);
      if !TitleLengthOk(title) then Fail("Title must be between 3 and 50.", InvalidCodespaceInput)
      else if !v.isObjectId(session.value) then Err(CastError(session.value))
      else
        var owner := v.castId(session.value);
        match FindOne(db.users, (u: User) => u.id == owner)
        case None => Fail("Something went wrong", SomethingWentWrong)
        case Some(user) =>
          if FindOne(db.codespaces, (c: Codespace) => c.title == title).Some? then
            Fail("Codespace already exists", CodespaceAlreadyExists)
          else
            var codespace := Codespace(newId, title, DescriptionOrDefault(input.description),
                                       Utils.Encode(input.code), input.language, user.id, 0, 0, 0, 0, 0);
            Ok((Db(db.users, db.codespaces + [codespace]), codespace))
  }

  /** `getCodespace(title)`: session, then a non-empty title, then the
      codespace with exactly that title whose owner is the session key. The
      title is not trimmed here, and `owner` is a plain string field, so the
      key is compared as text, without the cast `createCodespace` applies. */
  function GetCodespace(db: Db, session: Option<string>, title: string): (r: Result<Codespace>)
    ensures !HasSession(session) ==> r == Err(ResolverError("Session expired", SessionExpired, []))
    ensures HasSession(session) && title == "" ==>
      r == Err(ResolverError("Title is missing", InvalidCodespaceInput, []))
    ensures HasSession(session) && title != "" ==>
      (r.Ok? <==> exists c :: c in db.codespaces && c.title == title && c.owner == session.value)
    ensures r.Ok? ==> r.value in db.codespaces && r.value.title == title && r.value.owner == session.value
    ensures HasSession(session) && title != "" && r.Err? ==>
      r == Err(ResolverError("Codespace not found", CodespaceNotFound, []))
  {
    if !HasSession(session) then Fail("Session expired", SessionExpired)
    else if title == "" then Fail("Title is missing", InvalidCodespaceInput)
    else
      match FindOne(db.codespaces, (c: Codespace) => c.title == title && c.owner == session.value)
      case None => Fail("Codespace not found", CodespaceNotFound)
      case Some(c) => Ok(c)
  }

  // ---------------------------------------------------------------- properties

  /** A successful creation keeps the store valid: the trimmed title was
      free across all owners, the owner exists, the code is encoded, and the
      id is fresh. */
  lemma CreateCodespacePreservesValid(db: Db, v: Validators, session: Option<string>,
                                      input: CreateCodespaceInput, newId: Id)
    requires Valid(v, db) && IsFreshId(v, db, newId)
    requires CreateCodespace(db, v, session, input, newId).Ok?
    ensures Valid(v, CreateCodespace(db, v, session, input, newId).value.0)
  {
    var (db', c) := CreateCodespace(db, v, session, input, newId).value;
    var cs := db'.codespaces;
    assert cs == db.codespaces + [c];
    forall i, j | 0 <= i < j < |cs|
      ensures cs[i].id != cs[j].id && cs[i].title != cs[j].title
    {
      if j == |db.codespaces| {
        assert cs[i] in db.codespaces;
      }
    }
    TrimIdempotent(input.title);
    assert UserIds(db') == UserIds(db);
    forall x | x in cs ensures IsValidCodespace(db', x) {
      if x != c {
        assert x in db.codespaces;
        assert IsValidCodespace(db, x);
      }
    }
  }

  /** Creating a codespace and then asking for it under the trimmed title
      with the same session returns it exactly when the session key is an
      id in canonical form; any other spelling of the id (upper-case hex,
      say) creates the codespace but cannot find it again. Decoding the
      stored code gives back the submitted code when that code is latin-1
      text. */
  lemma CreateThenGet(db: Db, v: Validators, session: Option<string>, input: CreateCodespaceInput, newId: Id)
    requires CreateCodespace(db, v, session, input, newId).Ok?
    ensures var (db', c) := CreateCodespace(db, v, session, input, newId).value;
      GetCodespace(db', session, Trim(input.title))
        == if v.castId(session.value) == session.value then Ok(c)
           else Err(ResolverError("Codespace not found", CodespaceNotFound, []))
    ensures Utils.IsLatin1(input.code) ==>
      Utils.Decode(CreateCodespace(db, v, session, input, newId).value.1.code) == input.code
  {
    var (db', c) := CreateCodespace(db, v, session, input, newId).value;
    var r := GetCodespace(db', session, Trim(input.title));
    assert c in db'.codespaces;
    if r.Ok? {
      assert r.value !in db.codespaces;
    }
    if Utils.IsLatin1(input.code) {
      Utils.DecodeEncode(input.code);
    }
  }

  /** Title uniqueness is global: a codespace of a different owner with the
      same trimmed title blocks creation just as one of the session's own
      owner does. */
  lemma TitleClashAcrossOwners(db: Db, v: Validators, session: Option<string>,
                               input: CreateCodespaceInput, newId: Id, other: Codespace)
    requires IsAcceptableCreation(session, input) && v.isObjectId(session.value)
    requires UserExists(db, v.castId(session.value))
    requires other in db.codespaces && other.owner != v.castId(session.value) && other.title == Trim(input.title)
    ensures CreateCodespace(db, v, session, input, newId).Err?
    ensures CreateCodespace(db, v, session, input, newId).error.HasCode(CodespaceAlreadyExists)
  {
    assert TitleTaken(db, Trim(input.title));
  }
}
