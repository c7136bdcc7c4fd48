/** The authentication controller: password login with a rate limit and an
    SMS code, code verification with its own rate limit, logout by token
    blacklisting, and password change. Each request is a pure step from the
    current world to its result and the ordered calls it issues. */
module Auth {
  import opened Optional
  import opened Strings
  import opened Redis
  import opened Users
  import opened Effects

  /** Failures a counter tolerates before the request is refused. */
  const MaxAttempts := 3
  /** EXPIRE given to a login counter on its first increment. */
  const LoginWindow: Seconds := 300
  /** SETEX lifetime of a cached verification code. */
  const CodeLifetime: Seconds := 120
  /** EXPIRE given to a code-attempt counter on its first increment. */
  const CodeWindow: Seconds := 120
  /** Blacklist lifetime for a token that has already expired. */
  const RevocationGrace: Seconds := 60

  /** What the request handler gets from the current user row and sends back. */
  datatype Profile = Profile(id: Id, username: string, phone: string)

  /** The primitives the controller calls but whose insides are not modelled:
      bcrypt compare and hash, the phone-field decryption (None where it
      throws), the SHA-256 hex digest of a token, and JWT minting. */
  datatype Primitives = Primitives(
    passwordMatches: (string, string) -> bool,
    hashPassword: string -> string,
    decryptField: string -> Option<string>,
    tokenDigest: string -> string,
    mintToken: Profile -> string)

  /** Causes of the 500 responses. */
  datatype Fault =
    | DecryptionFailed     // the stored phone does not decrypt
    | SmsNotSent           // the SMS provider refused the message
    | CounterNotInteger    // INCR met a value that is not an integer, or would overflow
    | TokenMissing         // no second field in the authorization header to hash

  datatype LoginResult =
    | LoginBlocked                       // 429
    | LoginRejected(remaining: nat)      // 401 with the attempts left
    | ChallengeIssued(user: Profile)     // 200, requires2FA
    | LoginFailed(fault: Fault)          // 500

  datatype MfaResult =
    | MalformedCode                      // 400, not three digits
    | UnknownUser                        // 401, no such username
    | MfaBlocked                         // 429, restart the login
    | CodeExpired                        // 400, no cached code
    | CodeRejected(remaining: nat)       // 401 with the attempts left
    | Authenticated(token: string, user: Profile)  // 200
    | MfaFailed(fault: Fault)            // 500

  datatype LogoutResult =
    | LoggedOut                          // 200
    | MissingExpiry                      // 400, the token carries no usable exp
    | LogoutFailed(fault: Fault)         // 500

  datatype PasswordResult =
    | PasswordChanged                    // 200
    | UserNotFound                       // 404
    | WrongPassword                      // 401

  /** `Math.max(0, 3 - n)`: attempts left after the n-th failure. */
  function Remaining(n: int): (r: nat)
    ensures r >= MaxAttempts - n && (r == 0 || r == MaxAttempts - n)
  {
    if MaxAttempts - n > 0 then MaxAttempts - n else 0
  }

  /** `Math.floor(Math.random() * 999 + 1)` for a value `random` of
      `Math.random()` in [0, 1): the number a login draws for its code. */
  function CodeNumber(random: real): (n: nat)
    requires 0.0 <= random < 1.0
    ensures 1 <= n <= 999
  {
    (random * 999.0 + 1.0).Floor
  }

  /** `.toString().padStart(3, "0")` of the drawn number. */
  function VerificationCode(draw: nat): string {
    PadStart(NatToDecimal(draw), 3, '0')
  }

  /** The SMS body: the code between a fixed greeting and a fixed note on
      its two-minute lifetime. */
  function SmsText(code: string): string {
    "Seu codigo de verificacao e " + code + ". Ele expira em 2 minutos."
  }

  /** The message determines the code: two codes never produce the same SMS. */
  lemma SmsTextDeterminesCode(a: string, b: string)
    ensures SmsText(a) == SmsText(b) ==> a == b
  {
    var head := "Seu codigo de verificacao e ";
    if SmsText(a) == SmsText(b) {
      assert |a| == |b|;
      assert a == SmsText(a)[|head|..|head| + |a|];
      assert b == SmsText(b)[|head|..|head| + |b|];
    }
  }

  /** INCR a failure counter, and EXPIRE it when that made it 1. */
  function CountFailure(st: Store, key: Key, window: Seconds): seq<Call> {
    [Cache(Incr(key))] + (if IncrReply(st, key) == Some(1) then [Cache(Expire(key, window))] else [])
  }

  /** A failed credential check: one attempt consumed, then 429 at the
      threshold and 401 with the attempts left below it. */
  function LoginFailure(st: Store, key: Key, before: seq<Call>): Step<LoginResult> {
    match IncrReply(st, key)
    case None => Step(LoginFailed(CounterNotInteger), before + [Cache(Incr(key))])
    case Some(n) =>
      Step(if n >= MaxAttempts then LoginBlocked else LoginRejected(Remaining(n)),
           before + CountFailure(st, key, LoginWindow))
  }

  /** `loginUser`. `draw` is the number drawn for the code, `CodeNumber` of
      the value of `Math.random()`, so in 1..999; `delivered` is whether the
      SMS provider accepted the message. */
  function Login(w: World, p: Primitives, username: string, password: string,
                 draw: nat, delivered: bool): Step<LoginResult>
    requires 1 <= draw <= 999
  {
    var key := LoginAttempts(ToLower(username));
    if AtThreshold(w.store, key) then Step(LoginBlocked, [Cache(Get(key))])
    else CheckCredentials(w, p, username, password, VerificationCode(draw), delivered)
  }

  /** `loginUser` once the attempt counter is below the threshold; `code` is
      the code a correct password gets. */
  function CheckCredentials(w: World, p: Primitives, username: string, password: string,
                            code: string, delivered: bool): Step<LoginResult>
  {
    var key := LoginAttempts(ToLower(username));
    var checked := [Cache(Get(key)), Db(SelectByName(username))];
    match FindByName(w.users, username)
    case None => LoginFailure(w.store, key, checked)
    case Some(u) =>
      match p.decryptField(u.phone)
      case None => Step(LoginFailed(DecryptionFailed), checked)
      case Some(phone) =>
        if !p.passwordMatches(password, u.passwordHash) then LoginFailure(w.store, key, checked)
        else
          var codeKey := MfaCode(u.id);
          var issued := checked + [Cache(Del(key)), Cache(SetEx(codeKey, CodeLifetime, code)), Sms(phone, SmsText(code))];
          if delivered then Step(ChallengeIssued(Profile(u.id, u.username, phone)), issued)
          else Step(LoginFailed(SmsNotSent), issued + [Cache(Del(codeKey))])
  }

  /** `verifyMfaCode`. */
  function VerifyMfa(w: World, p: Primitives, username: string, code: string): Step<MfaResult> {
    var submitted := Trim(code);
    var lookup := [Db(SelectByName(username))];
    if !IsCodeFormat(submitted) then Step(MalformedCode, [])
    else match FindByName(w.users, username)
      case None => Step(UnknownUser, lookup)
      case Some(u) =>
        match p.decryptField(u.phone)
        case None => Step(MfaFailed(DecryptionFailed), lookup)
        case Some(phone) =>
          var checked := CheckCode(w.store, p, u, phone, submitted);
          Step(checked.result, lookup + checked.calls)
  }

  /** `verifyMfaCode` once the user is known: the attempt gate, then the
      cached code compared with the submitted one. */
  function CheckCode(st: Store, p: Primitives, u: User, phone: string, submitted: string): Step<MfaResult> {
    var codeKey := MfaCode(u.id);
    var attemptsKey := MfaAttempts(u.id);
    var probes := [Cache(Get(attemptsKey)), Cache(Get(codeKey))];
    var cached := Read(st, codeKey);
    if AtThreshold(st, attemptsKey) then Step(MfaBlocked, [Cache(Get(attemptsKey))])
    else if cached.None? || cached.value == "" then Step(CodeExpired, probes + [Cache(Del(attemptsKey))])
    else if cached.value != submitted then
      match IncrReply(st, attemptsKey)
      case None => Step(MfaFailed(CounterNotInteger), probes + [Cache(Incr(attemptsKey))])
      case Some(n) =>
        var counted := probes + CountFailure(st, attemptsKey, CodeWindow);
        if n >= MaxAttempts then Step(MfaBlocked, counted + [Cache(Del(codeKey)), Cache(Del(attemptsKey))])
        else Step(CodeRejected(Remaining(n)), counted)
    else
      var profile := Profile(u.id, u.username, phone);
      Step(Authenticated(p.mintToken(profile), profile), probes + [Cache(Del(codeKey)), Cache(Del(attemptsKey))])
  }

  /** The blacklist TTL for a token with `remaining` seconds left: never
      shorter than the token's own lifetime, and the grace period once it
      has run out. */
  function RevocationTtl(remaining: int): (ttl: Seconds)
    ensures ttl >= remaining
    ensures remaining > 0 ==> ttl == remaining
    ensures remaining <= 0 ==> ttl == RevocationGrace
  {
    if remaining > 0 then remaining else RevocationGrace
  }

  /** `logoutUser`. `authorization` is the request header, `exp` the decoded
      expiry claim (None when absent) and `nowMillis` the value of `Date.now()`. */
  function Logout(w: World, p: Primitives, authorization: string, exp: Option<int>,
                  nowMillis: nat): Step<LogoutResult>
  {
    if exp.None? || exp.value == 0 then Step(MissingExpiry, [])
    else match SecondField(authorization)
      case None => Step(LogoutFailed(TokenMissing), [])
      case Some(token) =>
        var ttl := RevocationTtl(exp.value - nowMillis / 1000);
        Step(LoggedOut, [Cache(SetEx(Revoked(p.tokenDigest(token)), ttl, "true"))])
  }

  /** `changePassword` for the authenticated user `id`. */
  function ChangePassword(w: World, p: Primitives, id: Id, oldPassword: string,
                          newPassword: string): Step<PasswordResult>
  {
    var select := [Db(SelectById(id))];
    match FindById(w.users, id)
    case None => Step(UserNotFound, select)
    case Some(u) =>
      if !p.passwordMatches(oldPassword, u.passwordHash) then Step(WrongPassword, select)
      else Step(PasswordChanged, select + [Db(UpdatePassword(id, p.hashPassword(newPassword)))])
  }
}
