# Authentication controller model

A Dafny model of the authentication state machine of the server's user
controller (`server/src/controllers/user.controller.ts`). There are four
request handlers:

- password login: a per-username attempt counter in Redis, and a 3-digit
  code cached and sent by SMS;
- code verification: a per-user attempt counter, and a check against the
  cached code;
- logout: blacklists the token's SHA-256 digest until the token expires;
- password change.

Each handler is a pure function from the current `World` (Redis store plus
user table) and the request to a `Step`: the result tag and the ordered
list of calls the handler issues. A call is a Redis command, a database
query or an SMS send. Replaying the calls (`Effects.Replay`) gives the world
afterwards. The lemmas state the net effect of each branch on that world.

Modules, in dependency order:

- `Optional`, `Strings`: decimal rendering, `padStart`, JavaScript `trim`,
  ASCII `toLowerCase` and `split(" ")[1]`.
- `Users`: the user table and its three queries.
- `Redis`: typed keys with their string forms, integer and text values,
  TTLs, and the commands GET, INCR, EXPIRE, SETEX and DEL.
- `Effects`: calls, worlds and replay.
- `Auth`: the four handlers.
- `LoginProperties`, `MfaProperties`, `SessionProperties`: branch-by-branch
  contracts.
- `Invariants`: the entry shapes every reachable store keeps, and counter
  bounds over any sequence of requests and expiries from an empty store.
- `Scenarios`: worked request sequences.

Primitives the controller calls but the model does not look inside are
function-valued fields of `Auth.Primitives`. These are bcrypt compare and
hash, field decryption (partial: `None` where it throws), the token digest
and JWT minting. A login takes the number its code is drawn from, in
1..999; `Auth.CodeNumber` relates that number to the value of
`Math.random()` in [0, 1). `Date.now()` is a natural-number parameter in
milliseconds. Whether the SMS provider accepts the message is a boolean
parameter.

Facts the proofs bring out:

- **The code-attempt gate never fires when requests run one at a time and
  every call succeeds.** The code-attempt counter is deleted on its third
  failure, so in any store reached by such requests it never holds 3
  (`Invariants.CountersStayBounded`). The "at least 3" check before the
  code comparison therefore only matters under concurrent requests, or
  when the best-effort DEL of the counter fails and its error is
  swallowed.
- **Outcomes follow the code's order of checks:**
  - a corrupt phone field answers 500 before the password is checked, and
    consumes no attempt (`LoginProperties.LoginDecryptFailure`; for code
    verification, `MfaProperties.MfaDecryptFailure`);
  - a failed SMS still clears the login counter, because the counter is
    deleted before the code is cached;
  - the rollback after a failed SMS deletes the code key, which also
    removes any code still pending from an earlier login;
  - a new login does not reset the code-attempt counter.

Two behaviours of the code that a reader might not expect:

- Code verification answers an unknown username with a 401 that carries no
  remaining count and consumes no attempt, unlike a wrong code
  (`MfaProperties.MfaFormatGate`), so the two answers can be told apart.
- Logout's `!exp` test rejects an expiry claim of 0 as well as a missing
  one (`SessionProperties.LogoutNeedsExpiry`).

## Model

| member | source | states |
|---|---|---|
| Strings.NatToDecimal | server/src/controllers/user.controller.ts:124-125 | `toString` of a number is a non-empty digit string with no leading zero, of length 1, 2 or 3 below 10, 100, 1000 |
| Strings.DecimalRoundTrip | server/src/controllers/user.controller.ts:124-125 | reading back the rendered digits gives the number |
| Strings.PaddedDecimal | server/src/controllers/user.controller.ts:124-126 | a number below 1000 padded to width 3 with '0' is three digits that still denote the number |
| Strings.PadStart | server/src/controllers/user.controller.ts:126 | `padStart(3, "0")`: zeros in front up to three characters; its contract is `Strings.PadStartShape` |
| Strings.PadStartShape | server/src/controllers/user.controller.ts:126 | the padded string has the requested width (or the input's, if longer), only fill characters in front, and the input at its end |
| Strings.TrimStartStrips | server/src/controllers/user.controller.ts:164 | the leading-whitespace pass drops exactly a whitespace prefix and stops at a non-whitespace character |
| Strings.TrimEndStrips | server/src/controllers/user.controller.ts:164 | the trailing-whitespace pass drops exactly a whitespace suffix and stops at a non-whitespace character |
| Strings.TrimStrips | server/src/controllers/user.controller.ts:164 | `trim` leaves a slice of the input with only whitespace removed around it and no whitespace at either end |
| Strings.TrimIdempotent | server/src/controllers/user.controller.ts:164 | trimming a trimmed code changes nothing |
| Strings.DigitsTrimToThemselves | server/src/controllers/user.controller.ts:164-166 | a digit string is its own trim |
| Strings.Trim | server/src/controllers/user.controller.ts:164 | `trim`: the leading then the trailing whitespace pass; its contract is `Strings.TrimStrips` |
| Strings.IsCodeFormat | server/src/controllers/user.controller.ts:166 | `/^\d{3}$/`: exactly three ASCII digits |
| Strings.CodeFormatIsPaddedNumber | server/src/controllers/user.controller.ts:166 | a string passes the code format test exactly when it is the zero-padded three-digit rendering of some number 0..999 |
| Strings.NumberValue | server/src/controllers/user.controller.ts:51 | `Number` of a counter string on integer forms: an optional sign and decimal digits between whitespace read as that integer, whitespace alone as 0; other strings read as None (NaN or a non-integer value, see Left out) |
| Strings.RedisInteger | server/src/controllers/user.controller.ts:67 | the integer INCR finds in a stored string: canonical decimal with an optional '-' whose value lies in the signed 64-bit range, else the "not an integer" error |
| Strings.IntegerTextRoundTrip | server/src/controllers/user.controller.ts:51 | the decimal rendering of any integer is read back as that integer by `Number`, and by INCR exactly when it lies in the signed 64-bit range |
| Strings.RedisIntegerIsCanonical | server/src/controllers/user.controller.ts:67 | INCR accepts a string as the integer n exactly when the string is n's decimal rendering and n lies in the signed 64-bit range |
| Strings.ToLower | server/src/controllers/user.controller.ts:47 | `toLowerCase` keeps the length and lowers each ASCII letter in place |
| Strings.SecondFieldOfBearer | server/src/controllers/user.controller.ts:272 | `split(" ")[1]` of "scheme token" is the token when neither has a space |
| Strings.SecondField | server/src/controllers/user.controller.ts:272 | `split(" ")[1]` is undefined exactly when the header has no space, and is otherwise the space-free text between the first space and the next space or the end |
| Redis.RedisKey | server/src/controllers/user.controller.ts:48 | the key strings of the controller: `auth:login:<name>:attempts` here, `mfa:login:<id>` (line 127, and 191), `mfa:login:<id>:attempts` (line 192) and `blacklist:jwt:<digest>` (line 288); that no two entries share a string is `Redis.RedisKeyInjective` |
| Redis.Read | server/src/controllers/user.controller.ts:50 | the GET reply (here, and at lines 194 and 205): None exactly for a missing key, the stored text, or a counter's decimal text; what it returns after each write is `Redis.GetAfterWrite` |
| Redis.GetAfterWrite | server/src/controllers/user.controller.ts:204-205 | what the GETs of the code and its counter see: GET returns the text SETEX stored (the code cached at line 130), nothing after DEL, the reply of a successful INCR as decimal text, and is unaffected by commands on other keys |
| Redis.RedisKeyInjective | server/src/controllers/user.controller.ts:48 | distinct login-counter, code, code-counter and blacklist keys never render to the same Redis key string |
| Redis.Exec | server/src/controllers/user.controller.ts:67-69 | a Redis command changes at most the key it names |
| Redis.AtThreshold | server/src/controllers/user.controller.ts:50-53 | whether `raw ? Number(raw) : 0` is at least 3 for the stored value; its contract is `Redis.AtThresholdReadsRaw` |
| Redis.AtThresholdReadsRaw | server/src/controllers/user.controller.ts:50-53 | the threshold test holds exactly when GET returns a non-empty string that `Number` reads as 3 or more |
| Redis.IncrReply | server/src/controllers/user.controller.ts:67 | the reply of INCR, or its error on a value that is not a 64-bit integer or would overflow; its contract is `Redis.IncrReplyReadsRaw` |
| Redis.IncrReplyReadsRaw | server/src/controllers/user.controller.ts:67 | INCR on a missing key replies 1, on a stored integer string one more than it, and fails on any other string and on the largest 64-bit integer |
| Users.FindByName | server/src/controllers/user.controller.ts:61-66 | the lookup by username returns a row with that name, finds none only when no row has it, and finds the one row when names are unique |
| Users.FindById | server/src/controllers/user.controller.ts:311-312 | the lookup by id returns a row with that id, finds none only when no row has it |
| Users.SetPasswordHash | server/src/controllers/user.controller.ts:326 | the update gives the matching rows the new hash and leaves every other row and field as it was |
| Auth.Remaining | server/src/controllers/user.controller.ts:80 | `Math.max(0, 3 - n)`: at least 3 - n, never negative, and equal to one of the two |
| Auth.CountFailure | server/src/controllers/user.controller.ts:67-70 | INCR of a counter followed by EXPIRE when the reply is 1; its effect is `LoginProperties.CountFailureEffect` |
| Auth.LoginFailure | server/src/controllers/user.controller.ts:66-120 | a failed credential check: count one failure, then 429 at 3 and 401 with the attempts left below, or 500 when INCR fails; stated by `LoginProperties.LoginFailureConsumesOneAttempt` and `LoginProperties.LoginCounterNotInteger` |
| Auth.VerificationCode | server/src/controllers/user.controller.ts:124-126 | the drawn number rendered and zero-padded to three characters; stated by `LoginProperties.VerificationCodeShape` |
| Auth.Login | server/src/controllers/user.controller.ts:44-158 | `loginUser`: the counter gate, then the credential check; its branches are stated by `LoginProperties.LoginBlockedBeforeLookup`, `LoginFailureConsumesOneAttempt`, `LoginCounterNotInteger`, `LoginDecryptFailure`, `LoginSuccessIssuesChallenge` and `SmsFailureRollsBack`, and its invariant by `Invariants.LoginKeepsReachable` |
| Auth.CheckCredentials | server/src/controllers/user.controller.ts:61-153 | `loginUser` past the counter gate: lookup, phone decryption, password comparison (a failure counted, or 500 when INCR fails), then the challenge writes and the SMS; stated by the same `LoginProperties` lemmas |
| Auth.VerifyMfa | server/src/controllers/user.controller.ts:161-265 | `verifyMfaCode`: the format gate, the lookup and the phone decryption, then the code check; stated by `MfaProperties.MfaFormatGate`, `MfaDecryptFailure`, `MfaBlockedAtThreshold`, `MfaExpiredCode`, `MfaWrongCode`, `MfaCounterNotInteger` and `MfaMatchingCode`, and by `Invariants.VerifyKeepsReachable` |
| Auth.CheckCode | server/src/controllers/user.controller.ts:191-258 | `verifyMfaCode` once the user is known: the attempt gate, the expired code, the wrong code (counted, or 500 when INCR fails) and the matching code; stated by the `MfaProperties` lemmas named for `Auth.VerifyMfa` |
| Auth.RevocationTtl | server/src/controllers/user.controller.ts:282-292 | the blacklist TTL is positive and never shorter than the token's remaining lifetime: that lifetime when positive, else 60 s |
| Auth.Logout | server/src/controllers/user.controller.ts:269-302 | `logoutUser`: the expiry check, the token field and the blacklist SETEX; stated by `SessionProperties.LogoutNeedsExpiry`, `LogoutTokenMissing`, `LogoutRevokesToken` and `LogoutTwice` |
| Auth.ChangePassword | server/src/controllers/user.controller.ts:305-336 | `changePassword`: lookup by id, old password comparison, hash update; stated by `SessionProperties.ChangePasswordOutcomes` |
| Auth.SmsText | server/src/controllers/user.controller.ts:131-134 | the SMS body is the code between a fixed greeting and a note that it expires in 2 minutes; by `Auth.SmsTextDeterminesCode` two codes never give the same message |
| Auth.SmsTextDeterminesCode | server/src/controllers/user.controller.ts:131-134 | the SMS text determines the code it carries |
| Auth.CodeNumber | server/src/controllers/user.controller.ts:124 | `floor(random * 999 + 1)` for `random` in [0, 1) lies in 1..999 |
| LoginProperties.CountFailureEffect | server/src/controllers/user.controller.ts:67-70 | INCR then EXPIRE-on-first raises the counter by exactly one, gives it the window TTL only when it becomes 1, and touches no other key |
| LoginProperties.LoginBlockedBeforeLookup | server/src/controllers/user.controller.ts:47-64 | a counter at 3 or more is refused after the counter read alone, changing nothing; below it the user table is queried next |
| LoginProperties.LoginCounterIgnoresCase | server/src/controllers/user.controller.ts:47-64 | names equal up to case share one counter, while the user query uses the name as typed |
| LoginProperties.LoginFailureConsumesOneAttempt | server/src/controllers/user.controller.ts:66-120 | a missing user or wrong password consumes exactly one attempt (300 s expiry only on the first) and answers 429 at 3, else 401 with 3 minus the count |
| LoginProperties.LoginCounterNotInteger | server/src/controllers/user.controller.ts:66-104 | a missing user or wrong password whose counter INCR rejects answers 500 (the outer catch at lines 154-157) after the counter read, the lookup and the failed INCR; nothing changes |
| LoginProperties.MissingUserLooksLikeWrongPassword | server/src/controllers/user.controller.ts:66-120 | the missing-user and wrong-password paths give the same answer and the same store |
| LoginProperties.LoginDecryptFailure | server/src/controllers/user.controller.ts:88-96 | with the user found and the counter below 3, a phone field that does not decrypt answers 500 after the counter read and lookup alone, whatever the password; nothing changes |
| LoginProperties.VerificationCodeShape | server/src/controllers/user.controller.ts:124-126 | the code is three digits whose value is the drawn number, so never "000", and it passes the verification format test untouched by trimming |
| LoginProperties.EveryCodeNumberIsDrawable | server/src/controllers/user.controller.ts:124 | every number in 1..999 comes from some value of `Math.random()` |
| LoginProperties.ChallengeWrites | server/src/controllers/user.controller.ts:122-148 | those writes remove the counter and cache the code for 120 s, and the rollback leaves neither key; nothing else changes |
| LoginProperties.LoginSuccessIssuesChallenge | server/src/controllers/user.controller.ts:122-153 | once the SMS is accepted, a right password answers with the profile, clears the counter, caches the code for 120 s under the user's id and sends it by SMS; nothing else changes |
| LoginProperties.SmsFailureRollsBack | server/src/controllers/user.controller.ts:122-148 | when the SMS is refused the answer is an error, the counter stays cleared and the code key is gone; nothing else changes |
| LoginProperties.LoginResultHidesCode | server/src/controllers/user.controller.ts:146-153 | the answer does not depend on the drawn code |
| MfaProperties.MfaFormatGate | server/src/controllers/user.controller.ts:164-179 | the malformed-code 400 (`MalformedCode`) is given exactly when the trimmed code is not three digits, with no call made; an unknown user gets 401 after the lookup alone |
| MfaProperties.MfaDecryptFailure | server/src/controllers/user.controller.ts:181-189 | with the user found, a phone field that does not decrypt answers 500 after the lookup alone, whatever the code; nothing changes |
| MfaProperties.MfaBlockedAtThreshold | server/src/controllers/user.controller.ts:194-203 | a code-attempt counter at 3 or more answers 429 and changes nothing |
| MfaProperties.MfaExpiredCode | server/src/controllers/user.controller.ts:205-214 | with no cached code the answer is "expired", the counter is deleted and nothing else changes |
| MfaProperties.MfaWrongCode | server/src/controllers/user.controller.ts:216-237 | a wrong code consumes one attempt (120 s expiry on the first); the third deletes code and counter and answers 429, earlier ones answer 401 with 3 minus the count |
| MfaProperties.MfaCounterNotInteger | server/src/controllers/user.controller.ts:216-220 | a wrong code whose attempt counter INCR rejects answers 500 (the outer catch at lines 261-264); the code stays cached and nothing changes |
| MfaProperties.MfaMatchingCode | server/src/controllers/user.controller.ts:240-258 | the matching code deletes code and counter and returns the minted token with id, username and decrypted phone |
| MfaProperties.MfaAuthenticatesIffCodeMatches | server/src/controllers/user.controller.ts:205-258 | past the gate, authentication happens exactly when the cached code equals the trimmed submitted code |
| SessionProperties.LogoutNeedsExpiry | server/src/controllers/user.controller.ts:274-279 | logout answers 400 exactly when `exp` is absent or 0, and then writes nothing |
| SessionProperties.LogoutTokenMissing | server/src/controllers/user.controller.ts:272-302 | with a usable expiry, logout fails (the digest of an undefined token throws into the outer catch at lines 298-301) exactly when the header holds no space, and then writes nothing |
| SessionProperties.LogoutRevokesToken | server/src/controllers/user.controller.ts:272-292 | logout writes only the blacklist key of the token's digest, as "true", with TTL exp minus now in whole seconds when positive, else 60 |
| SessionProperties.LogoutTwice | server/src/controllers/user.controller.ts:285-292 | at the same clock reading, a second logout with the same token succeeds and leaves the store as the first left it |
| SessionProperties.LogoutAgainLater | server/src/controllers/user.controller.ts:281-292 | at a later clock reading, a second logout with the same token succeeds; the blacklist entry stays "true", only its TTL is reset to the seconds left then (or 60), and nothing else changes |
| SessionProperties.ChangePasswordOutcomes | server/src/controllers/user.controller.ts:311-326 | unknown id gives 404, wrong old password 401, both changing nothing; otherwise only that user's hash becomes the hash of the new password; Redis is never touched |
| SessionProperties.SetPasswordHashKeepsNames | server/src/controllers/user.controller.ts:326 | a password update keeps every username, so unique names stay unique |
| SessionProperties.PasswordChangeThenLogin | server/src/controllers/user.controller.ts:98-131 | with an ideal hash, after a change the new password reaches the SMS challenge and a different old password does not |
| Invariants.CountedKeepsReachable | server/src/controllers/user.controller.ts:67-70 | one counted failure below the limit keeps every entry in its reachable shape |
| Invariants.LoginKeepsReachable | server/src/controllers/user.controller.ts:44-158 | a login keeps counters in 1..3 with a 300 s TTL and codes three digits with a 120 s TTL |
| Invariants.VerifyKeepsReachable | server/src/controllers/user.controller.ts:161-265 | code verification keeps code counters in 1..2 with a 120 s TTL |
| Invariants.LogoutKeepsReachable | server/src/controllers/user.controller.ts:281-292 | logout only adds "true" blacklist entries that carry a TTL |
| Invariants.RunKeepsReachable | server/src/controllers/user.controller.ts:44-336 | any sequence of requests and key expiries keeps the reachable shape |
| Invariants.CountersStayBounded | server/src/controllers/user.controller.ts:50-78 | from an empty store a login counter never exceeds 3 and a code counter never reaches 3 |
| Invariants.LoginRejectionLeavesOneOrTwo | server/src/controllers/user.controller.ts:80-83 | in a reachable store a 401 from login reports 1 or 2 attempts left |
| Invariants.MfaBlockDestroysCode | server/src/controllers/user.controller.ts:194-230 | in a reachable store a 429 from verification comes from the third wrong code and leaves neither code nor counter |
| Scenarios.GhostLocksOut | server/src/controllers/user.controller.ts:50-86 | four logins as an unknown name answer 401 (2 left), 401 (1 left), 429, and 429 after the counter read alone, whatever codes are drawn |
| Scenarios.WrongCodesForceNewLogin | server/src/controllers/user.controller.ts:205-230 | for any cached code, one other well-formed code submitted three times answers 401, 401, 429, after which the cached code is reported expired |
| Scenarios.ShortCodeIsMalformed | server/src/controllers/user.controller.ts:164-169 | "7" is malformed and makes no call |
| Scenarios.PaddedCodeMatches | server/src/controllers/user.controller.ts:164-258 | " 042 " is trimmed and matches a cached "042" |
| Scenarios.NamesShareCounter | server/src/controllers/user.controller.ts:47-48 | "Alice" counts under `auth:login:alice:attempts` |
| Scenarios.NumericTextCounterBlocks | server/src/controllers/user.controller.ts:50-53 | a login counter holding the text "5" refuses the login after the counter read alone, and INCR on it replies 6 |

## Left out

- `createUser` (user.controller.ts lines 13-41): it only maps a Postgres duplicate-key error to a response.
- `server/src/utils/transportEncryption.ts`: AES-GCM and JSON wrapping. Field decryption is the abstract `decryptField`.
- `server/src/services/sms.ts`: a network client. Its success is the `delivered` parameter.
- The React pages: user interface only.
- The insides of bcrypt, field decryption, SHA-256 and JWT signing: they are opaque functions. The bcrypt salt and the token's issue time are folded into `hashPassword` and `mintToken`.
- `clearRateLimit`: request middleware that is not part of this model. It is treated as doing nothing to the modelled state.
- The passage of time: a TTL is recorded on each entry, and its running out is the explicit `Invariants.Event.Lapse`.
- Concurrency: requests run one at a time. Races between a counter read and its increment are not modelled.
- Outages of Redis, Postgres or bcrypt, and the outer `catch` that turns them into 500: every call is assumed to succeed. The only faults modelled are:
  - a phone field that does not decrypt;
  - a refused SMS;
  - INCR on a value that is not a 64-bit integer, or that is already the largest one;
  - a missing token field.
- Request bodies that are not strings (`String(username ?? "")`): names, passwords and codes are strings.
- A logout request without an `Authorization` header: `authorization` is a string, so it is always present. The code's `req.headers.authorization!` relies on `authMiddleware` having checked the header, and without one it would throw into the 500 catch before the `!exp` test. `SessionProperties.LogoutNeedsExpiry`'s "exactly when" is read over requests that carry the header.
- HTTP status codes and message texts: each outcome is a result constructor, commented with its status.
- Strings.ToLower: lowers ASCII letters only, because full Unicode case mapping is out of scope. Usernames are stored as typed, so names that differ only in the case of non-ASCII letters share one counter in the code but get separate counters in the model.
- Redis.AtThreshold: reads a stored string through `Strings.NumberValue`, so a counter holding a non-integer numeric form is below the threshold here even when `Number` reads it as 3 or more (see the `Strings.NumberValue` line).
- Strings.NumberValue: reads integer forms only. A counter holding a fraction, an exponent, a hex, binary or octal literal, or "Infinity" reads as NaN (None) here, although `Number` gives it a value. Integers are read exactly, whereas `Number` rounds those beyond 2^53 to a double; the `>= 3` test gives the same answer either way.
- Strings.IntegerTextRoundTrip: the `Number` half holds for every integer here, but in the code only up to 2^53 in magnitude, beyond which `Number` returns the nearest double.
- Auth.CodeNumber: computes with exact reals where the code uses doubles. `random * 999 + 1` may round differently in floating point, but it stays in [1, 1000), so the range 1..999 still holds.
- SessionProperties.PasswordChangeThenLogin: rests on `IdealHashing`, a hash that accepts its own password and no other. bcrypt compares only the first 72 bytes, so an old password that shares those bytes with the new one is still accepted.
