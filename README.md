# LoginBackend20233: favorites store and token claims, in Dafny

This project models the logic of `CuentasController`, the account controller of the
LoginBackend20233 web API. It covers two parts.

- **The favorites store.** This is the `Favoritos` table: rows `{Id, UserId, idMeal}`.
  The controller lists a user's rows, adds a (user, meal) pair and removes one.
  The table is a sequence of rows in store order plus the next value of its identity
  column (`FavoritesStore.Table`). `AddTo` and `RemoveFrom` give the effect of one
  request. The class `FavoritesStore.Store` performs the same requests in place, and its
  methods are proved equal to those functions. The invariant `WellFormed` says:
  - no two rows share (UserId, idMeal);
  - ids are distinct and below the next identity value.
- **Token claims.** `ConstruirToken` builds a claim list: the `("email", Email)` claim
  first, then the account's stored claims. `Renovar` takes the first `"email"` claim of
  the authenticated principal and rebuilds from its value. `Login` and `Registrar`
  branch on the answer of the credential store. The credential store is outside the
  model: it appears as a map from email to the account's claims, and its verdicts
  (password accepted, account created) are inputs.

`ConstruirToken` returns `new RespuestaAutenticacion()` with nothing set. The model
therefore returns the built claim list *beside* an `EmptyResponse` value. Every contract
is about the built list, and none says the response carries it.

Files:
- `wrappers.dfy`: `Option`.
- `favoritos.dfy`: the record.
- `favorites_store.dfy`: the table, the requests, their lemmas and the `Store` class.
- `tokens.dfy`: claims, token construction, renewal, login and registration.

Behaviours worth noting:
- A duplicate add answers 400 (BadRequest), not a distinct conflict kind.
- Renewal for an email the store does not know is an uncaught exception (500,
  `AccountNotFound`). It is not a dedicated "identity not found" answer.
- The returned token is empty. It is not a signed token.

## Model

| member | source | states |
|---|---|---|
| `Favoritos.NewFavorite` | LoginBackend20233/Models/Favoritos.cs:12-18 | a fresh record has id 0 and empty UserId and idMeal |
| `FavoritesStore.FindFirst` | LoginBackend20233/Controllers/CuentasController.cs:166-167 | the lookup finds nothing exactly when no row has the pair; otherwise it gives the first row with the pair |
| `FavoritesStore.ForUser` | LoginBackend20233/Controllers/CuentasController.cs:143-145 | the list holds exactly the rows of that user; it is empty exactly when the user has no row |
| `FavoritesStore.ForUserAppend` | LoginBackend20233/Controllers/CuentasController.cs:143-145 | the list keeps store order: listing a concatenation is the concatenation of the lists |
| `FavoritesStore.UniqueKeysAtMostOnce` | LoginBackend20233/Controllers/CuentasController.cs:166-172 | under the uniqueness invariant a pair is stored at most once |
| `FavoritesStore.AddTo` | LoginBackend20233/Controllers/CuentasController.cs:157-177 | null payload: invalid data, table unchanged; stored pair: already a favorite, table unchanged; otherwise Ok, the payload appended with the next identity value as id, and the counter advanced |
| `FavoritesStore.RemoveFrom` | LoginBackend20233/Controllers/CuentasController.cs:186-206 | null payload: invalid data, table unchanged; absent pair: not found, table unchanged; otherwise Ok, and exactly the first matching row is cut out |
| `FavoritesStore.AddPreservesWellFormed` | LoginBackend20233/Controllers/CuentasController.cs:166-175 | adding keeps pairs unique, ids unique and ids below the counter |
| `FavoritesStore.AddStoresNewPair` | LoginBackend20233/Controllers/CuentasController.cs:174-177 | adding an absent pair appends one row after the unchanged old rows; the pair is then stored exactly once, under an id no old row has |
| `FavoritesStore.AddTwiceConflicts` | LoginBackend20233/Controllers/CuentasController.cs:166-174 | after an add of a pair, adding it again is rejected with the table unchanged, and the pair is stored exactly once |
| `FavoritesStore.RemovePreservesWellFormed` | LoginBackend20233/Controllers/CuentasController.cs:195-204 | removing keeps pairs unique, ids unique and ids below the counter |
| `FavoritesStore.RemoveDeletesPair` | LoginBackend20233/Controllers/CuentasController.cs:195-206 | removing a stored pair deletes exactly one row; the pair is then absent; every other row remains and no row appears |
| `FavoritesStore.AddThenRemoveRestores` | LoginBackend20233/Controllers/CuentasController.cs:174-204 | removing a freshly added pair gives back exactly the old rows; only the identity counter has moved on |
| `FavoritesStore.ListAfterAdd` | LoginBackend20233/Controllers/CuentasController.cs:143-177 | a successful add appends the new row to its owner's list and leaves every other user's list unchanged |
| `FavoritesStore.ListAfterAddThenRemove` | LoginBackend20233/Controllers/CuentasController.cs:143-206 | after a successful add and then a remove, the user's list holds no row for that meal |
| `FavoritesStore.PayloadIdIgnored` | LoginBackend20233/Controllers/CuentasController.cs:166-196 | add and remove compare only (UserId, idMeal), so the payload's id does not change the answer or the table; for removal this is the program's behaviour, and for addition it holds in the model because the model treats every payload's Id as 0 |
| `FavoritesStore.Store.constructor` | LoginBackend20233/ApplicationDbContext.cs:17 | an empty, well-formed table whose identity column starts at 1 |
| `FavoritesStore.Store.List` | LoginBackend20233/Controllers/CuentasController.cs:139-147 | holds exactly the store's rows of that user, in store order; empty rather than an error when there are none |
| `FavoritesStore.Store.Add` | LoginBackend20233/Controllers/CuentasController.cs:157-177 | keeps the store well formed; the answer and the new table are those of `AddTo` on the old table |
| `FavoritesStore.Store.Remove` | LoginBackend20233/Controllers/CuentasController.cs:186-206 | keeps the store well formed; the answer and the new table are those of `RemoveFrom` on the old table |
| `Tokens.FirstOfType` | LoginBackend20233/Controllers/CuentasController.cs:81 | nothing is found exactly when no claim has the type; otherwise the first claim of that type is found |
| `Tokens.FirstOfTypeAt` | LoginBackend20233/Controllers/CuentasController.cs:81 | the first claim of a type is the one found, whatever follows it |
| `Tokens.TokenFor` | LoginBackend20233/Controllers/CuentasController.cs:58-66 | a list is built exactly when the account exists; it is the email claim followed by the account's claims in order, so its length is one more than theirs |
| `Tokens.BuildToken` | LoginBackend20233/Controllers/CuentasController.cs:56-75 | starting from the email claim and appending the stored claims produces the list `TokenFor` describes, next to an empty response |
| `Tokens.TokenCarriesEmail` | LoginBackend20233/Controllers/CuentasController.cs:58-61 | the first email claim of a built list names the account it was built for |
| `Tokens.Renewal` | LoginBackend20233/Controllers/CuentasController.cs:79-95 | BadRequest with the fixed message exactly when the principal is null or has no email claim; otherwise the claim list built for the value of the first email claim |
| `Tokens.RenewRefusedIffNoEmailClaim` | LoginBackend20233/Controllers/CuentasController.cs:81-93 | renewal answers the BadRequest message exactly when the principal is null or has no email claim |
| `Tokens.RenewUsesFirstEmailClaim` | LoginBackend20233/Controllers/CuentasController.cs:81-88 | renewal builds the token for the value of the first email claim |
| `Tokens.RenewRebuildsSameClaims` | LoginBackend20233/Controllers/CuentasController.cs:58-88 | renewing a built list, with the account unchanged, builds the same list again |
| `Tokens.RenewDropsRevokedClaim` | LoginBackend20233/Controllers/CuentasController.cs:63-88 | a claim the account no longer holds is never carried over from the presented token |
| `Tokens.Login` | LoginBackend20233/Controllers/CuentasController.cs:98-111 | an accepted sign-in builds the account's claim list; a refused one answers exactly the fixed BadRequest message |
| `Tokens.Register` | LoginBackend20233/Controllers/CuentasController.cs:41-54 | a created account has no stored claims, so the built list is the email claim alone; a refusal leaves the accounts unchanged and answers the failure message as the code builds it, from the error objects' type names |
| `Tokens.Join` | LoginBackend20233/Controllers/CuentasController.cs:53 | no parts give the empty string, one part gives itself, and more start with the first part and the separator |
| `Tokens.RegisterFailureMessageAsWritten` | LoginBackend20233/Controllers/CuentasController.cs:53 | the message starts with the fixed prefix; for a single error it is the prefix followed by the type name, not the description |
| `Tokens.RegisterFailureMessage` | LoginBackend20233/Controllers/CuentasController.cs:53 | the intended message starts with the fixed prefix; for a single error it is the prefix followed by that error's description |
| `Tokens.RegisterMessageAsWrittenHidesReasons` | LoginBackend20233/Controllers/CuentasController.cs:53 | as written, two refusals with the same number of errors give the same message, whatever the reasons |
| `Tokens.RegisterMessageCounterexample` | LoginBackend20233/Controllers/CuentasController.cs:53 | for a duplicate-user-name refusal, the message as written holds the type name; it differs from the message holding the description |
| `Tokens.RegisterMessageListsReasons` | LoginBackend20233/Controllers/CuentasController.cs:53 | the corrected message contains the description of every error the store gave |
| `Tokens.JoinContains` | LoginBackend20233/Controllers/CuentasController.cs:53 | every part occurs in the joined string |

## Findings

| source | as written | input that shows it | evidently intended | confidence | as-written member | corrected member |
|---|---|---|---|---|---|---|
| LoginBackend20233/Controllers/CuentasController.cs:53 | the failure message joins the `IdentityError` objects themselves, and `IdentityError` does not override `ToString`, so each error reads as its type name | a `CreateAsync` refusal with the single error DuplicateUserName, description "Username 'a@b.c' is already taken." | join the errors' descriptions, so that the message lists the store's reasons | medium (relies on `IdentityError` not overriding `ToString`); not executed | `Tokens.RegisterFailureMessageAsWritten`, `Tokens.RegisterMessageAsWrittenHidesReasons`, `Tokens.RegisterMessageCounterexample` | `Tokens.RegisterFailureMessage`, `Tokens.RegisterMessageListsReasons` |

## Left out

- JWT signing, the HMAC-SHA256 key read from configuration, and the one-day expiry (CuentasController.cs:68-71). These are cryptography, wall-clock time and library calls, and their result is discarded at line 73. So no property about the token's signature or its `expiresAt` is stated.
- Password checks and account creation (`PasswordSignInAsync`, `CreateAsync`), and the lookups `FindByEmailAsync`/`GetClaimsAsync`. These are credential-store services. Their verdicts are inputs, and the store's accounts are a map from email to claims.
- `Tokens.Register`: a successful `CreateAsync` is taken to add an account with no stored claims under that email. The credential store's own rules (unique user names, password policy) are not modelled.
- `ObtenerUserId` (CuentasController.cs:115-135): a pass-through to the credential store's lookup by email. It has no logic of its own and is not part of this model.
- The `catch (Exception)` branches that answer 500, `SaveChangesAsync`, async/await, HTTP routing and status wrapping.
- The check-then-act race between concurrent adds, and any uniqueness constraint in the database. The model is sequential, one request at a time.
- Model validation by the framework (`[Required]`, `[EmailAddress]`, `[ApiController]` automatic 400s). Payload fields are never null in the model. Only a null payload as a whole is modelled (`None`).
- `FavoritesStore.AddTo`, `FavoritesStore.PayloadIdIgnored`, `FavoritesStore.Store.Add`: the model treats every payload as if its Id were 0, so the identity column always assigns the next value. EF Core inserts a non-zero Id as given. SQL Server refuses such an insert, which becomes a 500 through the exception handler; a provider that accepts it stores the row under the caller's Id. Neither outcome is modelled.
- `FavoritesStore.Table`: ids are unbounded integers. Overflow of the 32-bit identity column is not modelled.
- `FavoritesStore.ForUser`: "store order" is the order of the row sequence. The database's own enumeration order, which a query without ordering does not guarantee, is not modelled.
- `Tokens.Renewal`: the principal's claims are an input. Validation of the bearer token by the authorization filter before the action runs is not modelled.
- `CredencialesUsuario` is a plain input record. Its password field plays no part beyond the sign-in verdict.
- `FavoritesStore.FindFirst`, `FavoritesStore.ForUser`: user ids and meal ids compare as exact strings. The queries run in the database under its column collation, which may ignore case or trailing spaces; that collation is not modelled.
- `Tokens.TokenFor`: the account is looked up by the exact email string. The credential store's email normalization (an upper-case form), which lets "A@B.C" find the account "a@b.c", is not modelled.
