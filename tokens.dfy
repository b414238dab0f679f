/**
 Claim handling of CuentasController: the claim list ConstruirToken builds
 for an account, the email-claim lookup of Renovar, and the Login and
 Registrar branches around them.

 The credential store is an outside service. The model sees it as a map from
 an account's email to the claims stored for that account, in store order;
 whether a password is right, and whether an account could be created, are
 inputs. Signing, the signing key and the expiry are not modelled, and the
 response object ConstruirToken returns is empty (`EmptyResponse`): the claim
 list it builds is reported beside it so that its properties can be stated.
 */
module Tokens {
  import opened Wrappers

  /** A (type, value) attribute of an identity. */
  datatype Claim = Claim(claimType: string, value: string)

  /** The type of the identity claim the token is built around. */
  const EmailClaimType: string := "email"

  /** The stored claims of each account, by email. */
  type Accounts = map<string, seq<Claim>>

  /** `new RespuestaAutenticacion()` with none of its properties set. */
  datatype AuthResponse = EmptyResponse

  /** What an authentication endpoint answers. `Issued` carries the claim list
      that was built for the token together with the (empty) response; an
      email the credential store does not know makes `GetClaimsAsync` throw,
      which nothing catches (`AccountNotFound`). */
  datatype AuthOutcome =
    | Issued(claims: seq<Claim>, response: AuthResponse)
    | BadRequest(message: string)
    | AccountNotFound

  /** One reason the credential store gives for refusing to create an account. */
  datatype IdentityError = IdentityError(code: string, description: string)

  /** The answer of `userManager.CreateAsync`. */
  datatype IdentityResult = Succeeded | Failed(errors: seq<IdentityError>)

  const RenewFailureMessage: string :=
    "No se pudo obtener la información del usuario para renovar el token"
  const LoginFailureMessage: string := "Credenciales de inicio de sesión incorrectas"
  const RegisterFailurePrefix: string := "Error al registrar el usuario: "

  // ---------------------------------------------------------------------
  // Claim lookup
  // ---------------------------------------------------------------------

  /** `FirstOrDefault(x => x.Type == claimType)`. */
  function FirstOfType(claims: seq<Claim>, claimType: string): (r: Option<Claim>)
    ensures r.None? <==> forall i :: 0 <= i < |claims| ==> claims[i].claimType != claimType
    ensures r.Some? ==>
              exists i :: && 0 <= i < |claims| && claims[i] == r.value
                          && claims[i].claimType == claimType
                          && forall j :: 0 <= j < i ==> claims[j].claimType != claimType
  {
    if |claims| == 0 then None
    else if claims[0].claimType == claimType then Some(claims[0])
    else FirstOfType(claims[1..], claimType)
  }

  /** The first claim of a type decides the lookup, whatever follows it. */
  lemma {:induction false} FirstOfTypeAt(claims: seq<Claim>, claimType: string, i: nat)
    requires i < |claims| && claims[i].claimType == claimType
    requires forall j :: 0 <= j < i ==> claims[j].claimType != claimType
    ensures FirstOfType(claims, claimType) == Some(claims[i])
  {
    if i > 0 {
      assert claims[0].claimType != claimType;
      FirstOfTypeAt(claims[1..], claimType, i - 1);
    }
  }

  // ---------------------------------------------------------------------
  // Token construction (ConstruirToken)
  // ---------------------------------------------------------------------

  /** The claim list ConstruirToken arrives at for `email`: the email claim
      first, then the account's stored claims in their order. */
  function TokenFor(accounts: Accounts, email: string): (r: AuthOutcome)
    ensures r.Issued? || r.AccountNotFound?
    ensures r.Issued? <==> email in accounts
    ensures r.Issued? ==>
              && |r.claims| == 1 + |accounts[email]|
              && r.claims[0] == Claim(EmailClaimType, email)
              && forall i :: 0 <= i < |accounts[email]| ==> r.claims[i + 1] == accounts[email][i]
  {
    if email in accounts then Issued([Claim(EmailClaimType, email)] + accounts[email], EmptyResponse)
    else AccountNotFound
  }

  /** ConstruirToken: start the list with the email claim, look the account up
      and append its claims. */
  method BuildToken(accounts: Accounts, email: string) returns (r: AuthOutcome)
    ensures r == TokenFor(accounts, email)
  {
    var claims := [Claim(EmailClaimType, email)];
    if email !in accounts {
      return AccountNotFound;
    }
    var stored := accounts[email];
    claims := claims + stored;
    r := Issued(claims, EmptyResponse);
  }

  /** The email claim of a built list names the account it was built for. */
  lemma TokenCarriesEmail(accounts: Accounts, email: string)
    requires email in accounts
    ensures FirstOfType(TokenFor(accounts, email).claims, EmailClaimType) == Some(Claim(EmailClaimType, email))
  {
    FirstOfTypeAt(TokenFor(accounts, email).claims, EmailClaimType, 0);
  }

  // ---------------------------------------------------------------------
  // Renewal (Renovar)
  // ---------------------------------------------------------------------

  /** Renovar on the claims of the authenticated principal (None when the
      principal or its claim collection is null): no email claim answers
      BadRequest, otherwise the token is built for the first one's value. */
  function Renewal(principal: Option<seq<Claim>>, accounts: Accounts): (r: AuthOutcome)
    ensures r == BadRequest(RenewFailureMessage) <==>
            (principal.None? ||
             forall i :: 0 <= i < |principal.value| ==> principal.value[i].claimType != EmailClaimType)
    ensures principal.Some? && FirstOfType(principal.value, EmailClaimType).Some? ==>
              r == TokenFor(accounts, FirstOfType(principal.value, EmailClaimType).value.value)
  {
    match principal
    case None => BadRequest(RenewFailureMessage)
    case Some(claims) =>
      match FirstOfType(claims, EmailClaimType)
      case None => BadRequest(RenewFailureMessage)
      case Some(c) => TokenFor(accounts, c.value)
  }

  /** Renewal is refused exactly when the principal carries no email claim. */
  lemma RenewRefusedIffNoEmailClaim(principal: Option<seq<Claim>>, accounts: Accounts)
    ensures Renewal(principal, accounts) == BadRequest(RenewFailureMessage) <==>
            (principal.None? ||
             forall i :: 0 <= i < |principal.value| ==> principal.value[i].claimType != EmailClaimType)
  {
  }

  /** Renewal builds from the value of the first email claim. */
  lemma RenewUsesFirstEmailClaim(claims: seq<Claim>, i: nat, accounts: Accounts)
    requires i < |claims| && claims[i].claimType == EmailClaimType
    requires forall j :: 0 <= j < i ==> claims[j].claimType != EmailClaimType
    ensures Renewal(Some(claims), accounts) == TokenFor(accounts, claims[i].value)
  {
    FirstOfTypeAt(claims, EmailClaimType, i);
  }

  /** Renewing a built claim list, with the account unchanged, builds the
      same list again. */
  lemma RenewRebuildsSameClaims(accounts: Accounts, email: string)
    requires email in accounts
    ensures Renewal(Some(TokenFor(accounts, email).claims), accounts) == TokenFor(accounts, email)
  {
    TokenCarriesEmail(accounts, email);
  }

  /** Renewal reads the account's current claims: a claim the account no longer
      holds is not carried over from the presented token. */
  lemma RenewDropsRevokedClaim(claims: seq<Claim>, accounts: Accounts, revoked: Claim)
    requires Renewal(Some(claims), accounts).Issued?
    requires FirstOfType(claims, EmailClaimType).Some?
    requires revoked != Claim(EmailClaimType, FirstOfType(claims, EmailClaimType).value.value)
    requires revoked !in accounts[FirstOfType(claims, EmailClaimType).value.value]
    ensures revoked !in Renewal(Some(claims), accounts).claims
  {
    var email := FirstOfType(claims, EmailClaimType).value.value;
    var built := TokenFor(accounts, email).claims;
    assert built == [Claim(EmailClaimType, email)] + accounts[email];
  }

  // ---------------------------------------------------------------------
  // Login and Registrar
  // ---------------------------------------------------------------------

  /** Login, with `signedIn` the verdict of `PasswordSignInAsync`. */
  method Login(accounts: Accounts, email: string, signedIn: bool) returns (r: AuthOutcome)
    ensures signedIn ==> r == TokenFor(accounts, email)
    ensures !signedIn ==> r == BadRequest(LoginFailureMessage)
  {
    if signedIn {
      r := BuildToken(accounts, email);
    } else {
      r := BadRequest(LoginFailureMessage);
    }
  }

  /** `string.Join(separator, parts)`: no parts give the empty string, one
      part gives itself, and more start with the first part and the separator. */
  function Join(parts: seq<string>, separator: string): (r: string)
    ensures |parts| == 0 ==> r == ""
    ensures |parts| == 1 ==> r == parts[0]
    ensures |parts| > 1 ==> |r| >= |parts[0]| + |separator|
                            && r[..|parts[0]| + |separator|] == parts[0] + separator
  {
    if |parts| == 0 then ""
    else if |parts| == 1 then parts[0]
    else parts[0] + separator + Join(parts[1..], separator)
  }

  /** `part` occurs in `s` starting at position `k`. */
  predicate OccursAt(s: string, part: string, k: int)
  {
    0 <= k <= |s| - |part| && s[k..k + |part|] == part
  }

  /** Every part occurs in the joined string. */
  lemma {:induction false} JoinContains(parts: seq<string>, separator: string, i: nat)
    requires i < |parts|
    ensures exists k :: OccursAt(Join(parts, separator), parts[i], k)
  {
    var joined := Join(parts, separator);
    if i == 0 {
      assert OccursAt(joined, parts[0], 0);
    } else {
      var rest := Join(parts[1..], separator);
      JoinContains(parts[1..], separator, i - 1);
      var k :| OccursAt(rest, parts[i], k);
      var head := parts[0] + separator;
      assert joined == head + rest;
      assert joined[|head| + k..|head| + k + |parts[i]|] == rest[k..k + |parts[i]|];
      assert OccursAt(joined, parts[i], |head| + k);
    }
  }

  /** The text `object.ToString()` gives for an IdentityError, which does not
      override it: the type's full name. */
  const IdentityErrorTypeName: string := "Microsoft.AspNetCore.Identity.IdentityError"

  /** The texts of the errors as written: the error objects themselves. */
  function TypeNames(errors: seq<IdentityError>): seq<string>
  {
    seq(|errors|, _ => IdentityErrorTypeName)
  }

  /** The texts of the errors as intended: their descriptions. */
  function Descriptions(errors: seq<IdentityError>): (r: seq<string>)
    ensures |r| == |errors|
    ensures forall i :: 0 <= i < |r| ==> r[i] == errors[i].description
  {
    if |errors| == 0 then [] else [errors[0].description] + Descriptions(errors[1..])
  }

  /** The failure message as written: joining the error objects themselves. */
  function RegisterFailureMessageAsWritten(errors: seq<IdentityError>): (m: string)
    ensures |m| >= |RegisterFailurePrefix| && m[..|RegisterFailurePrefix|] == RegisterFailurePrefix
    ensures |errors| == 1 ==> m == RegisterFailurePrefix + IdentityErrorTypeName
  {
    RegisterFailurePrefix + Join(TypeNames(errors), ", ")
  }

  /** The failure message as intended: joining the errors' descriptions. */
  function RegisterFailureMessage(errors: seq<IdentityError>): (m: string)
    ensures |m| >= |RegisterFailurePrefix| && m[..|RegisterFailurePrefix|] == RegisterFailurePrefix
    ensures |errors| == 1 ==> m == RegisterFailurePrefix + errors[0].description
  {
    RegisterFailurePrefix + Join(Descriptions(errors), ", ")
  }

  /** As written, the message depends on the number of errors only, so it names
      none of the store's reasons. */
  lemma RegisterMessageAsWrittenHidesReasons(a: seq<IdentityError>, b: seq<IdentityError>)
    requires |a| == |b|
    ensures RegisterFailureMessageAsWritten(a) == RegisterFailureMessageAsWritten(b)
  {
    assert TypeNames(a) == TypeNames(b);
  }

  /** A concrete refusal, the duplicate-user-name error: as written the message
      holds the type name and differs from the one holding the description. */
  lemma RegisterMessageCounterexample()
    ensures var errors := [IdentityError("DuplicateUserName", "Username 'a@b.c' is already taken.")];
            && RegisterFailureMessageAsWritten(errors) == RegisterFailurePrefix + IdentityErrorTypeName
            && RegisterFailureMessage(errors) == RegisterFailurePrefix + errors[0].description
            && RegisterFailureMessageAsWritten(errors) != RegisterFailureMessage(errors)
  {
    var errors := [IdentityError("DuplicateUserName", "Username 'a@b.c' is already taken.")];
    assert TypeNames(errors) == [IdentityErrorTypeName];
    assert Descriptions(errors) == [errors[0].description];
    assert |IdentityErrorTypeName| != |errors[0].description|;
  }

  /** An occurrence survives putting a prefix in front. */
  lemma OccursAfterPrefix(prefix: string, s: string, part: string, k: int)
    requires OccursAt(s, part, k)
    ensures OccursAt(prefix + s, part, |prefix| + k)
  {
    assert (prefix + s)[|prefix| + k..|prefix| + k + |part|] == s[k..k + |part|];
  }

  /** As intended, the message lists every reason the store gave. */
  lemma RegisterMessageListsReasons(errors: seq<IdentityError>, i: nat)
    requires i < |errors|
    ensures exists k :: OccursAt(RegisterFailureMessage(errors), errors[i].description, k)
  {
    var parts := Descriptions(errors);
    var joined := Join(parts, ", ");
    JoinContains(parts, ", ", i);
    var k :| OccursAt(joined, parts[i], k);
    OccursAfterPrefix(RegisterFailurePrefix, joined, parts[i], k);
    assert RegisterFailureMessage(errors) == RegisterFailurePrefix + joined;
  }

  /** Registrar, with `created` the answer of `CreateAsync`. A new account has
      no stored claims, so a successful registration builds the list holding
      the email claim alone. */
  method Register(accounts: Accounts, email: string, created: IdentityResult)
    returns (r: AuthOutcome, accountsAfter: Accounts)
    ensures created.Succeeded? ==>
              && accountsAfter == accounts[email := []]
              && r == Issued([Claim(EmailClaimType, email)], EmptyResponse)
    ensures created.Failed? ==>
              && accountsAfter == accounts
              && r == BadRequest(RegisterFailureMessageAsWritten(created.errors))
  {
    if created.Succeeded? {
      accountsAfter := accounts[email := []];
      r := BuildToken(accountsAfter, email);
      assert [Claim(EmailClaimType, email)] + accountsAfter[email] == [Claim(EmailClaimType, email)];
    } else {
      accountsAfter := accounts;
      r := BadRequest(RegisterFailureMessageAsWritten(created.errors));
    }
  }
}
