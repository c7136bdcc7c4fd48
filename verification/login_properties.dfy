/** Properties of `loginUser`: the rate-limit gate, the single attempt a
    failed credential check consumes, the two failure paths being alike, and
    the challenge a successful check issues. */
module LoginProperties {
  import opened Optional
  import opened Strings
  import opened Redis
  import opened Users
  import opened Effects
  import opened Auth

  /** Both ways a credential check fails and consumes an attempt: there is no
      row for the username, or the row's phone decrypts and its hash rejects
      the password. */
  predicate CredentialsFail(w: World, p: Primitives, username: string, password: string) {
    match FindByName(w.users, username)
    case None => true
    case Some(u) => p.decryptField(u.phone).Some? && !p.passwordMatches(password, u.passwordHash)
  }

  /** `st'` is `st` with the counter at `key` raised by one to `n`, given the
      `window` TTL exactly when `n` is 1, and every other key left alone. */
  ghost predicate CountedOnce(st: Store, st': Store, key: Key, n: int, window: Seconds) {
    && (key in st ==> CounterValue(st[key].value) == Some(n - 1))
    && (key !in st ==> n == 1)
    && key in st' && st'[key].value == Count(n)
    && (n == 1 ==> st'[key].ttl == Some(window))
    && (n != 1 ==> key in st && st'[key].ttl == st[key].ttl)
    && (forall k :: k != key ==> SameAt(st, st', k))
  }

  /** Reads and lookups followed by INCR and, on the first increment, EXPIRE
      raise the counter by one and touch nothing else. */
  lemma CountFailureEffect(w: World, key: Key, window: Seconds, before: seq<Call>)
    requires forall i :: 0 <= i < |before| ==> KeepsStore(before[i]) && KeepsUsers(before[i])
    requires IncrReply(w.store, key).Some?
    ensures var w' := Replay(w, before + CountFailure(w.store, key, window));
      && CountedOnce(w.store, w'.store, key, IncrReply(w.store, key).value, window)
      && w'.users == w.users
  {
    var tail := CountFailure(w.store, key, window);
    ReplayAfterReads(w, before, tail);
    var w1 := Apply(w, Cache(Incr(key)));
    ReplayConcat(w, [Cache(Incr(key))], tail[1..]);
    assert [Cache(Incr(key))] + tail[1..] == tail;
    assert Replay(w, [Cache(Incr(key))]) == w1;
    if IncrReply(w.store, key) == Some(1) {
      assert Replay(w1, tail[1..]) == Apply(w1, Cache(Expire(key, window)));
    } else {
      assert tail[1..] == [];
    }
  }

  /** At or past the threshold the request is refused after reading the
      counter alone: the user table is never queried, no attempt is consumed,
      nothing changes. Below it, the table is always queried. */
  lemma LoginBlockedBeforeLookup(w: World, p: Primitives, username: string, password: string,
                                 draw: nat, delivered: bool)
    requires 1 <= draw <= 999
    ensures var key := LoginAttempts(ToLower(username));
      var r := Login(w, p, username, password, draw, delivered);
      && |r.calls| >= 1 && r.calls[0] == Cache(Get(key))
      && (AtThreshold(w.store, key) ==> r.result == LoginBlocked && r.calls == [Cache(Get(key))] && r.After(w) == w)
      && (!AtThreshold(w.store, key) ==> |r.calls| >= 2 && r.calls[1] == Db(SelectByName(username)))
  {
    var key := LoginAttempts(ToLower(username));
    var r := Login(w, p, username, password, draw, delivered);
    if AtThreshold(w.store, key) {
      assert Replay(w, r.calls) == Replay(Apply(w, Cache(Get(key))), []);
    } else {
      var checked := [Cache(Get(key)), Db(SelectByName(username))];
      assert r.calls[..2] == checked;
      assert r.calls[0] == r.calls[..2][0] && r.calls[1] == r.calls[..2][1];
    }
  }

  /** "Alice" and "alice" share one attempt counter, while the user lookup
      uses the name exactly as typed. */
  lemma LoginCounterIgnoresCase(w: World, p: Primitives, name1: string, name2: string,
                                password: string, draw: nat, delivered: bool)
    requires 1 <= draw <= 999
    requires ToLower(name1) == ToLower(name2)
    ensures var r1 := Login(w, p, name1, password, draw, delivered);
      var r2 := Login(w, p, name2, password, draw, delivered);
      && |r1.calls| >= 1 && |r2.calls| >= 1 && r1.calls[0] == r2.calls[0]
      && (AtThreshold(w.store, LoginAttempts(ToLower(name2))) ==> r1.result == LoginBlocked)
      && (!AtThreshold(w.store, LoginAttempts(ToLower(name1))) ==> |r1.calls| >= 2 && r1.calls[1] == Db(SelectByName(name1)))
  {
    LoginBlockedBeforeLookup(w, p, name1, password, draw, delivered);
    LoginBlockedBeforeLookup(w, p, name2, password, draw, delivered);
  }

  /** A missing user or a wrong password consumes exactly one attempt: the
      counter goes up by one, gets the 300 s expiry only when it becomes 1, and
      the answer is 429 once it reaches 3 and otherwise 401 with 3 minus the
      count left. The user table is unchanged. */
  lemma LoginFailureConsumesOneAttempt(w: World, p: Primitives, username: string, password: string,
                                       draw: nat, delivered: bool)
    requires 1 <= draw <= 999
    requires !AtThreshold(w.store, LoginAttempts(ToLower(username)))
    requires CredentialsFail(w, p, username, password)
    requires IncrReply(w.store, LoginAttempts(ToLower(username))).Some?
    ensures var key := LoginAttempts(ToLower(username));
      var n := IncrReply(w.store, key).value;
      var r := Login(w, p, username, password, draw, delivered);
      && n <= MaxAttempts
      && CountedOnce(w.store, r.After(w).store, key, n, LoginWindow)
      && r.After(w).users == w.users
      && r.result == (if n >= MaxAttempts then LoginBlocked else LoginRejected(MaxAttempts - n))
  {
    var key := LoginAttempts(ToLower(username));
    CountFailureEffect(w, key, LoginWindow, [Cache(Get(key)), Db(SelectByName(username))]);
  }

  /** A failed credential check whose counter INCR rejects (a stored value
      that is not a 64-bit integer, or one already at the top of that range)
      answers 500: the INCR is sent, but it fails and nothing changes. */
  lemma LoginCounterNotInteger(w: World, p: Primitives, username: string, password: string,
                               draw: nat, delivered: bool)
    requires 1 <= draw <= 999
    requires !AtThreshold(w.store, LoginAttempts(ToLower(username)))
    requires CredentialsFail(w, p, username, password)
    requires IncrReply(w.store, LoginAttempts(ToLower(username))).None?
    ensures var key := LoginAttempts(ToLower(username));
      var r := Login(w, p, username, password, draw, delivered);
      && r.result == LoginFailed(CounterNotInteger)
      && r.calls == [Cache(Get(key)), Db(SelectByName(username)), Cache(Incr(key))]
      && r.After(w) == w
  {
    var key := LoginAttempts(ToLower(username));
    var checked := [Cache(Get(key)), Db(SelectByName(username))];
    ReplayAfterReads(w, checked, [Cache(Incr(key))]);
    ReplayCons(w, Cache(Incr(key)), []);
  }

  /** The missing-user path and the wrong-password path cannot be told apart:
      same answer, same store afterwards. */
  lemma MissingUserLooksLikeWrongPassword(w1: World, w2: World, p: Primitives, username: string,
                                          password: string, draw: nat, delivered: bool)
    requires 1 <= draw <= 999
    requires w1.store == w2.store
    requires FindByName(w1.users, username).None?
    requires FindByName(w2.users, username).Some?
    requires CredentialsFail(w2, p, username, password)
    ensures Login(w1, p, username, password, draw, delivered).result == Login(w2, p, username, password, draw, delivered).result
    ensures Login(w1, p, username, password, draw, delivered).After(w1).store == Login(w2, p, username, password, draw, delivered).After(w2).store
  {
    var r1 := Login(w1, p, username, password, draw, delivered);
    var r2 := Login(w2, p, username, password, draw, delivered);
    assert r1.calls == r2.calls;
    StoreIgnoresUsers(w1, w2, r1.calls);
  }

  /** A phone field that does not decrypt answers 500 once the user is
      found, before the password is compared: whatever the password, no
      attempt is consumed, no code is issued and nothing changes. */
  lemma LoginDecryptFailure(w: World, p: Primitives, username: string, password: string,
                            draw: nat, delivered: bool, u: User)
    requires 1 <= draw <= 999
    requires !AtThreshold(w.store, LoginAttempts(ToLower(username)))
    requires FindByName(w.users, username) == Some(u)
    requires p.decryptField(u.phone).None?
    ensures var r := Login(w, p, username, password, draw, delivered);
      && r.result == LoginFailed(DecryptionFailed)
      && r.calls == [Cache(Get(LoginAttempts(ToLower(username)))), Db(SelectByName(username))]
      && r.After(w) == w
  {
    ReplayOfReads(w, [Cache(Get(LoginAttempts(ToLower(username)))), Db(SelectByName(username))]);
  }

  /** The code sent by SMS is three ASCII digits, zero-padded, naming the
      drawn number (so never "000"); it passes the verification format test
      unchanged by trimming. */
  lemma VerificationCodeShape(draw: nat)
    requires 1 <= draw <= 999
    ensures var code := VerificationCode(draw);
      && IsCodeFormat(code)
      && DecimalValue(code) == draw
      && code != "000"
      && Trim(code) == code
  {
    PaddedDecimal(draw);
    DigitsTrimToThemselves(VerificationCode(draw));
  }

  /** The numbers `Math.floor(Math.random() * 999 + 1)` can draw are exactly
      1..999: each of them comes from some value of `Math.random()`. */
  lemma EveryCodeNumberIsDrawable(n: nat)
    requires 1 <= n <= 999
    ensures exists random :: 0.0 <= random < 1.0 && CodeNumber(random) == n
  {
    var random := (n - 1) as real / 999.0;
    assert random * 999.0 + 1.0 == n as real;
    assert CodeNumber(random) == n;
  }

  /** The store once a challenge is issued: no attempt counter at `key`, the
      code cached at `codeKey` for 120 s, every other entry as before. */
  function Challenged(st: Store, key: Key, codeKey: Key, code: string): Store {
    (st - {key})[codeKey := Entry(Text(code), Some(CodeLifetime))]
  }

  /** DEL of the counter, SETEX of the code and the SMS send issue the
      challenge; a further DEL of the code leaves neither key. */
  lemma ChallengeWrites(w: World, key: Key, codeKey: Key, code: string, sms: Call)
    requires key != codeKey && sms.Sms?
    ensures var writes := [Cache(Del(key)), Cache(SetEx(codeKey, CodeLifetime, code)), sms];
      && Replay(w, writes) == World(Challenged(w.store, key, codeKey, code), w.users)
      && Replay(w, writes + [Cache(Del(codeKey))]) == World(w.store - {key, codeKey}, w.users)
  {
    var writes := [Cache(Del(key)), Cache(SetEx(codeKey, CodeLifetime, code)), sms];
    var w1 := Apply(w, writes[0]);
    var w2 := Apply(w1, writes[1]);
    ReplayCons(w, writes[0], writes[1..]);
    ReplayCons(w1, writes[1], writes[2..]);
    ReplayCons(w2, writes[2], []);
    ReplayConcat(w, writes, [Cache(Del(codeKey))]);
    ReplayCons(w2, Cache(Del(codeKey)), []);
    var st := Challenged(w.store, key, codeKey, code) - {codeKey};
    forall k
      ensures (k in st <==> k in w.store - {key, codeKey})
      ensures k in st ==> st[k] == (w.store - {key, codeKey})[k]
    {
    }
    assert st == w.store - {key, codeKey};
  }

  /** The same writes after reads, as a login issues them. */
  lemma ChallengeEffect(w: World, key: Key, codeKey: Key, code: string, sms: Call,
                        checked: seq<Call>, delivered: bool)
    requires key != codeKey && sms.Sms?
    requires forall i :: 0 <= i < |checked| ==> KeepsStore(checked[i]) && KeepsUsers(checked[i])
    ensures var writes := [Cache(Del(key)), Cache(SetEx(codeKey, CodeLifetime, code)), sms];
      var w' := Replay(w, checked + (if delivered then writes else writes + [Cache(Del(codeKey))]));
      && (delivered ==> w' == World(Challenged(w.store, key, codeKey, code), w.users))
      && (!delivered ==> w' == World(w.store - {key, codeKey}, w.users))
  {
    var writes := [Cache(Del(key)), Cache(SetEx(codeKey, CodeLifetime, code)), sms];
    ChallengeWrites(w, key, codeKey, code, sms);
    ReplayAfterReads(w, checked, if delivered then writes else writes + [Cache(Del(codeKey))]);
  }

  /** A correct password clears the attempt counter, caches the code under
      `mfa:login:<id>` for 120 s and sends it by SMS to the decrypted phone;
      once the SMS is accepted the answer is the challenge. Nothing else
      changes. */
  lemma LoginSuccessIssuesChallenge(w: World, p: Primitives, username: string, password: string,
                                    draw: nat, u: User, phone: string)
    requires 1 <= draw <= 999
    requires !AtThreshold(w.store, LoginAttempts(ToLower(username)))
    requires FindByName(w.users, username) == Some(u)
    requires p.decryptField(u.phone) == Some(phone)
    requires p.passwordMatches(password, u.passwordHash)
    ensures var r := Login(w, p, username, password, draw, true);
      && r.result == ChallengeIssued(Profile(u.id, u.username, phone))
      && Sms(phone, SmsText(VerificationCode(draw))) in r.calls
      && r.After(w) == World(Challenged(w.store, LoginAttempts(ToLower(username)), MfaCode(u.id), VerificationCode(draw)), w.users)
  {
    var key := LoginAttempts(ToLower(username));
    var code := VerificationCode(draw);
    ChallengeCalls(w, p, username, password, code, true, u, phone);
    ChallengeEffect(w, key, MfaCode(u.id), code, Sms(phone, SmsText(code)), [Cache(Get(key)), Db(SelectByName(username))], true);
  }

  /** If the SMS provider refuses the code, the code key is deleted again and
      the answer is an error, never a challenge; the attempt counter stays
      cleared. Nothing else changes. */
  lemma SmsFailureRollsBack(w: World, p: Primitives, username: string, password: string,
                            draw: nat, u: User, phone: string)
    requires 1 <= draw <= 999
    requires !AtThreshold(w.store, LoginAttempts(ToLower(username)))
    requires FindByName(w.users, username) == Some(u)
    requires p.decryptField(u.phone) == Some(phone)
    requires p.passwordMatches(password, u.passwordHash)
    ensures var r := Login(w, p, username, password, draw, false);
      && r.result == LoginFailed(SmsNotSent)
      && Sms(phone, SmsText(VerificationCode(draw))) in r.calls
      && r.After(w) == World(w.store - {LoginAttempts(ToLower(username)), MfaCode(u.id)}, w.users)
  {
    var key := LoginAttempts(ToLower(username));
    var code := VerificationCode(draw);
    ChallengeCalls(w, p, username, password, code, false, u, phone);
    ChallengeEffect(w, key, MfaCode(u.id), code, Sms(phone, SmsText(code)), [Cache(Get(key)), Db(SelectByName(username))], false);
  }

  /** The calls and result of a login whose password is right: the counter
      read and the lookup, then the challenge writes and, if the SMS failed,
      the rollback. */
  lemma ChallengeCalls(w: World, p: Primitives, username: string, password: string,
                       code: string, delivered: bool, u: User, phone: string)
    requires FindByName(w.users, username) == Some(u)
    requires p.decryptField(u.phone) == Some(phone)
    requires p.passwordMatches(password, u.passwordHash)
    ensures var key := LoginAttempts(ToLower(username));
      var codeKey := MfaCode(u.id);
      var writes := [Cache(Del(key)), Cache(SetEx(codeKey, CodeLifetime, code)), Sms(phone, SmsText(code))];
      var r := CheckCredentials(w, p, username, password, code, delivered);
      && r.calls == [Cache(Get(key)), Db(SelectByName(username))] + (if delivered then writes else writes + [Cache(Del(codeKey))])
      && Sms(phone, SmsText(code)) in r.calls
      && r.result == (if delivered then ChallengeIssued(Profile(u.id, u.username, phone)) else LoginFailed(SmsNotSent))
  {
    var r := CheckCredentials(w, p, username, password, code, delivered);
    assert r.calls[4] == Sms(phone, SmsText(code));
  }

  /** The answer to a login does not depend on the drawn code: the code never
      reaches the caller. */
  lemma LoginResultHidesCode(w: World, p: Primitives, username: string, password: string,
                             draw1: nat, draw2: nat, delivered: bool)
    requires 1 <= draw1 <= 999 && 1 <= draw2 <= 999
    ensures Login(w, p, username, password, draw1, delivered).result == Login(w, p, username, password, draw2, delivered).result
  {
  }
}
