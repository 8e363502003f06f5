# Code-snippet service core in Dafny

This project models the request logic of a small GraphQL backend for sharing code snippets ("codespaces"). It covers three parts:

- **User resolver.** `getUser`, `createUser` (sign-up), `login` and `me`. Each runs its checks in a fixed order and stops at the first failure. Only a successful `createUser` writes.
- **Codespace resolver.** `createCodespace` and `getCodespace`. Both need the `userId` session cookie. Creation trims the title, checks title uniqueness across all owners, sets the owner from the session, and stores the code encoded.
- **String utilities.** `encode`/`decode` are base64 (section 4 of RFC 4648) over Node's "binary" (latin-1) byte view. `isImage` tests a URL's extension.

The document store is a pair of immutable sequences, Users and Codespaces. `findOne` is "first element that matches" in sequence order. MongoDB guarantees no order without a sort, but here the order does not matter: under `Store.Valid` every lookup the resolvers make has at most one match. Ids, emails and titles are unique (`Store.IdNamesOneAccount`, `Store.EmailNamesOneAccount`, `Store.TitleNamesOneCodespace`), and every other lookup key contains one of them. Each operation is a pure function from the store and its input to a `Result`. Mutations return the new store and the stored document. Every failure is a `ResolverError` carrying the source's message, code and field list, or a `CastError` for a lookup key the persistence layer cannot turn into an object id.

The store invariant is `Store.Valid`:
- ids, emails and usernames are unique among accounts;
- ids and titles are unique among codespaces;
- every account passed sign-up validation;
- every codespace title is trimmed and 3..50 long, its code is canonical base64, and its owner exists.

`Workflow.RunPreservesValid` proves that the invariant holds after any sequence of requests, provided two things hold. First, the starting store satisfies it. Second, the ids handed to the inserts are pairwise distinct, unused in the starting store, and well-formed object ids in canonical form (`Store.IsFreshId`).

A lookup by `_id` first casts its key to an object id. The cast is the parameter `castId`, read back as the id's string form. It need not be the identity: upper-case hex names the same id as lower-case. Stored ids are in canonical form, so the cast leaves them unchanged (`Store.IsCanonicalId`).

JavaScript strings are modelled as Dafny strings. These hold Unicode scalar values only, so a JavaScript string with an unpaired surrogate has no counterpart here. `length` is `JsString.Utf16Length`, which counts UTF-16 code units. `trim` removes the ECMAScript WhiteSpace and LineTerminator characters.

Behaviour of the code worth noting:
- `createUser` also requires `name` (src/resolvers/User.resolver.ts:45).
- `login` looks up by email only; there is no username alternative (src/resolvers/User.resolver.ts:120-135).
- `me` has no session check. A missing cookie becomes the lookup key `"undefined"` (src/resolvers/User.resolver.ts:168).
- Codespace titles are unique across all owners, not per owner (src/resolvers/Codespace.resolver.ts:27). See `CodespaceResolver.TitleClashAcrossOwners`.
- `createCodespace` casts the session key to find the account and stores that account's id as owner (src/resolvers/Codespace.resolver.ts:23-31). `getCodespace` compares the session key to `owner` as text (src/resolvers/Codespace.resolver.ts:43-46). A session key spelling the id differently, in upper-case hex for example, therefore creates a codespace it cannot fetch again. See `CodespaceResolver.CreateThenGet`.

## Model

| member | source | states |
|---|---|---|
| `JsString.Utf16Length` | src/resolvers/User.resolver.ts:60 | `length` counts UTF-16 code units: between the character count and twice it, equal to it on Basic-Multilingual-Plane text, zero exactly for the empty string |
| `JsString.Trim` | src/resolvers/Codespace.resolver.ts:19 | `trim()` returns a factor of its input with only white space cut from both ends and no white space at either edge |
| `JsString.TrimUnique` | src/resolvers/Codespace.resolver.ts:19 | that description fixes the result: any string that is a trim of `s` in that sense equals `Trim(s)` |
| `JsString.TrimIdempotent` | src/resolvers/Codespace.resolver.ts:19-20 | trimming an already trimmed title changes nothing, so stored titles are their own trim |
| `Base64.Encode` | src/utils/utils.ts:2 | base64 of n bytes is 4·⌈n/3⌉ characters, all from the RFC 4648 alphabet or '=' |
| `Base64.Decode` | src/utils/utils.ts:1 | decoding well-formed padded base64 of length 4·⌈n/3⌉ gives n bytes |
| `Base64.DecodeEncode` | src/utils/utils.ts:1-2 | every encoding is canonical, well-formed base64, and decoding it gives back the bytes |
| `Base64.EncodeDecode` | src/utils/utils.ts:1-2 | re-encoding the bytes of a canonical base64 text gives back the text |
| `Base64.TestVectorsShort` | src/utils/utils.ts:2 | the section 10 test vectors of RFC 4648 for "f", "fo" and "foo" |
| `Base64.TestVectorsLong` | src/utils/utils.ts:2 | the section 10 test vectors of RFC 4648 for "foob", "fooba" and "foobar" |
| `Utils.BinaryBytes` | src/utils/utils.ts:2 | `Buffer.from(s, "binary")` has one byte per UTF-16 code unit of `s` |
| `Utils.BinaryString` | src/utils/utils.ts:1 | `toString("binary")` gives one character per byte, whose code is that byte |
| `Utils.Encode` | src/utils/utils.ts:2 | `encode` of a string of JavaScript length n has length 4·⌈n/3⌉, uses only the alphabet and '=', is canonical base64, and is empty exactly for "" |
| `Utils.Decode` | src/utils/utils.ts:1 | `decode` returns latin-1 text, 3 characters per quad less padding |
| `Utils.DecodeEncode` | src/utils/utils.ts:1-2 | `decode(encode(s)) == s` for every string whose characters are all at most U+00FF |
| `Utils.EncodeDecode` | src/utils/utils.ts:1-2 | `encode(decode(t)) == t` for every canonical base64 text |
| `Utils.EncodeKeepsLowByteOnly` | src/utils/utils.ts:2 | a character above U+00FF is not preserved: U+2192 comes back as U+0092 |
| `Utils.EncodeTestVectors` | src/utils/utils.ts:2 | `encode` on the RFC 4648 section 10 inputs gives the section 10 outputs, and `encode("") == ""` |
| `Utils.IsImage` | src/utils/utils.ts:4 | `isImage(url)` holds iff the pattern `\.(jpeg\|jpg\|gif\|png)$` matches at some position: a '.' followed by one of the extensions running to the end of the URL |
| `Utils.ImagePatternSuffix` | src/utils/utils.ts:4 | that pattern search is the same as "ends with .jpeg, .jpg, .gif or .png" |
| `Utils.IsImageExamples` | src/utils/utils.ts:4 | the test is case-sensitive and anchored at the end: "avatar.PNG" and "a.png?x=1" are not images, "avatar.png" is |
| `Store.FirstMatch` | src/resolvers/User.resolver.ts:77 | `findOne` returns the first matching document in natural order, and none exactly when nothing matches |
| `Store.FindOne` | src/resolvers/User.resolver.ts:77 | the document found is stored and matches, and nothing is found exactly when no stored document matches |
| `Store.EmailNamesOneAccount` | src/resolvers/User.resolver.ts:76-86 | under the invariant two accounts with the same email are the same account |
| `Store.IdNamesOneAccount` | src/resolvers/User.resolver.ts:21 | under the invariant two accounts with the same id are the same account, so the lookup by `_id` finds one account whatever the read order |
| `Store.TitleNamesOneCodespace` | src/resolvers/Codespace.resolver.ts:27 | under the invariant two codespaces with the same title are the same codespace, whoever owns them |
| `UserResolver.GetUser` | src/resolvers/User.resolver.ts:17-35 | a non-object-id is INVALID_ID before any lookup; otherwise the result is the account whose id is the argument cast to an object id, or USER_NOT_FOUND flagging "id" exactly when there is none |
| `UserResolver.CreateUser` | src/resolvers/User.resolver.ts:42-102 | checks run in order (missing field, email, username 3..20, password 6..50, taken email, taken username), each with its code and field; success holds exactly when all pass and appends one account with the submitted fields, leaving everything else unchanged |
| `UserResolver.Login` | src/resolvers/User.resolver.ts:110-164 | empty field (no code), email syntax, password 6..50, then success exactly when some account has that email and that password; the cookie is "userId" = the account id, max age 604800000 ms, not HTTP-only, same-site "lax"; otherwise INVALID_CREDENTIALS flags email and password with one message |
| `UserResolver.Me` | src/resolvers/User.resolver.ts:166-172 | the account whose id is the session key cast to an object id, with "undefined" as the key for an absent cookie; a key that is not an object id fails the cast; a valid key whose cast names no account is USER_NOT_FOUND |
| `UserResolver.CreateUserPreservesValid` | src/resolvers/User.resolver.ts:76-100 | a successful sign-up keeps ids, emails and usernames unique and all other invariants intact |
| `UserResolver.LoginFindsTheAccount` | src/resolvers/User.resolver.ts:134-136 | under the invariant a successful login returns the one account with the submitted email |
| `UserResolver.MeAfterLogin` | src/resolvers/User.resolver.ts:155-172 | `me` with the cookie value a login hands out returns the account that logged in |
| `UserResolver.LoginAfterCreateUser` | src/resolvers/User.resolver.ts:100-101 | after a successful sign-up, logging in with the same email and password succeeds |
| `CodespaceResolver.CreateCodespace` | src/resolvers/Codespace.resolver.ts:12-35 | checks run in order (session, fields, trimmed title 3..50, key cast, account exists, title free across all owners), each with its code; success holds exactly when all pass and appends one codespace with the trimmed title, the id of the account the session key casts to as owner, the encoded code, the description or "" and zero counters |
| `CodespaceResolver.GetCodespace` | src/resolvers/Codespace.resolver.ts:37-50 | session, then non-empty title, then a codespace is returned exactly when one has that title and the session's id as owner; otherwise CODESPACE_NOT_FOUND |
| `CodespaceResolver.CreateCodespacePreservesValid` | src/resolvers/Codespace.resolver.ts:19-33 | a successful creation keeps titles and ids unique, titles trimmed and in bounds, code encoded and owners existing |
| `CodespaceResolver.CreateThenGet` | src/resolvers/Codespace.resolver.ts:30-49 | after creation, `getCodespace` with the trimmed title and the same session returns the new codespace exactly when the session key is the id in canonical form, and CODESPACE_NOT_FOUND otherwise; decoding the stored code gives the submitted latin-1 code |
| `CodespaceResolver.TitleClashAcrossOwners` | src/resolvers/Codespace.resolver.ts:27-28 | a same-titled codespace of another owner makes creation fail with CODESPACE_ALREADY_EXISTS |
| `Workflow.Step` | src/resolvers/User.resolver.ts:17-172 | lookups and login leave the store as it was; a sign-up only appends one account and a creation only appends one codespace; no id other than the fresh one appears |
| `Workflow.StepPreservesValid` | src/resolvers/Codespace.resolver.ts:12-50 | every request, failing or not, keeps the store invariant |
| `Workflow.Run` | src/resolvers/User.resolver.ts:100-101 | after a sequence of requests, the only new ids are the ones drawn as fresh |
| `Workflow.RunPreservesValid` | src/resolvers/Codespace.resolver.ts:27-33 | starting from a store that satisfies the invariant, it still holds after any sequence of requests whose fresh ids are canonical object ids, pairwise distinct and unused |

## Left out

- Server bootstrap, Express and Apollo middleware, CORS, environment and the database connection (src/main.ts, src/utils/connect_db.ts). These are I/O.
- The MongoDB query engine is replaced by sequences and a first-match lookup. Document ids are a parameter with a freshness precondition; how Mongo generates them is not modelled.
- `isEmail` (class-validator), `ObjectId.isValid` and Mongoose's cast of a key to an `_id` are foreign code. They are parameters (`Store.Validators`). The object-id predicate also decides whether the cast succeeds. Which spellings the cast identifies is not modelled. That covers upper-case hex and 12-character strings.
- JavaScript strings holding an unpaired surrogate cannot be represented, because Dafny strings are sequences of Unicode scalar values. `length`, `trim` and the binary view are modelled on well-formed text only.
- Cookie transport and `encodeURIComponent`/`decodeURIComponent` are left out. The cookie is a returned value whose value is the account id. The session is the decoded cookie value, `None` when absent. A malformed percent-escape that would make `decodeURIComponent` throw is not modelled.
- Timestamps (`createdAt`, `updatedAt`, `Date.now`) and the pre-save hooks of the schemas are left out, because they read the clock.
- The `ResolverError` class (src/utils/ErrorTypes) is not part of this model. The `login` error raised without a code is modelled with the code `NoCode`.
- The other schema revisions under src/schemas/user and src/schemas/codespace, the profile schema, and the context types are left out. They declare types with no behaviour.
- The resolvers contain no update, delete, search, list or logout operations, so none are modelled.
- A race between an existence check and the insert is not modelled. Each request is atomic.
- `Utils.Decode`: defined only on well-formed padded base64. Node's lenient handling of malformed input is not modelled.
- `CodespaceResolver.CreateCodespace`: an explicit `null` description is treated like an absent one.
