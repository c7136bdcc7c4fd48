/** Properties of `verifyMfaCode`: the format gate, the attempt gate, the
    expired code, the wrong code and the matching code. */
module MfaProperties {
  import opened Optional
  import opened Strings
  import opened Redis
  import opened Users
  import opened Effects
  import opened Auth
  import LoginProperties

  /** The request passes the format test and names a user whose phone decrypts. */
  predicate Identified(w: World, p: Primitives, username: string, code: string, u: User, phone: string) {
    && IsCodeFormat(Trim(code))
    && FindByName(w.users, username) == Some(u)
    && p.decryptField(u.phone) == Some(phone)
  }

  /** A code that is not three digits after trimming is refused before any
      query or store access, and only such a code is refused that way. An
      unknown username is refused after the lookup alone. */
  lemma MfaFormatGate(w: World, p: Primitives, username: string, code: string)
    ensures var r := VerifyMfa(w, p, username, code);
      && (r.result == MalformedCode <==> !IsCodeFormat(Trim(code)))
      && (r.result == MalformedCode ==> r.calls == [] && r.After(w) == w)
      && (IsCodeFormat(Trim(code)) && FindByName(w.users, username).None? ==>
            r.result == UnknownUser && r.calls == [Db(SelectByName(username))] && r.After(w) == w)
  {
    var r := VerifyMfa(w, p, username, code);
    if IsCodeFormat(Trim(code)) && FindByName(w.users, username).None? {
      ReplayOfReads(w, [Db(SelectByName(username))]);
    }
  }

  /** A phone field that does not decrypt answers 500 right after the
      lookup: the attempt counter and the cached code are never read, no
      attempt is consumed and nothing changes, whatever the code. */
  lemma MfaDecryptFailure(w: World, p: Primitives, username: string, code: string, u: User)
    requires IsCodeFormat(Trim(code))
    requires FindByName(w.users, username) == Some(u)
    requires p.decryptField(u.phone).None?
    ensures var r := VerifyMfa(w, p, username, code);
      && r.result == MfaFailed(DecryptionFailed)
      && r.calls == [Db(SelectByName(username))]
      && r.After(w) == w
  {
    ReplayOfReads(w, [Db(SelectByName(username))]);
  }

  /** The lookup comes first; what follows is the code check on the store. */
  lemma VerifyIsLookupThenCheck(w: World, p: Primitives, username: string, code: string, u: User, phone: string)
    requires Identified(w, p, username, code, u, phone)
    ensures var r := VerifyMfa(w, p, username, code);
      var c := CheckCode(w.store, p, u, phone, Trim(code));
      && r.result == c.result
      && r.After(w) == c.After(w)
  {
    var c := CheckCode(w.store, p, u, phone, Trim(code));
    ReplayAfterReads(w, [Db(SelectByName(username))], c.calls);
  }

  /** With three or more recorded failures the request is refused and nothing changes. */
  lemma MfaBlockedAtThreshold(w: World, p: Primitives, username: string, code: string, u: User, phone: string)
    requires Identified(w, p, username, code, u, phone)
    requires AtThreshold(w.store, MfaAttempts(u.id))
    ensures var r := VerifyMfa(w, p, username, code);
      r.result == MfaBlocked && r.After(w) == w
  {
    VerifyIsLookupThenCheck(w, p, username, code, u, phone);
    ReplayOfReads(w, [Cache(Get(MfaAttempts(u.id)))]);
  }

  /** No cached code (expired, never issued, or empty) means "expired": the
      attempt counter is deleted and nothing else changes; it is never
      reported as a wrong code. */
  lemma MfaExpiredCode(w: World, p: Primitives, username: string, code: string, u: User, phone: string)
    requires Identified(w, p, username, code, u, phone)
    requires !AtThreshold(w.store, MfaAttempts(u.id))
    requires Read(w.store, MfaCode(u.id)) in {None, Some("")}
    ensures var r := VerifyMfa(w, p, username, code);
      && r.result == CodeExpired
      && r.After(w) == World(w.store - {MfaAttempts(u.id)}, w.users)
  {
    VerifyIsLookupThenCheck(w, p, username, code, u, phone);
    var attemptsKey := MfaAttempts(u.id);
    var probes := [Cache(Get(attemptsKey)), Cache(Get(MfaCode(u.id)))];
    ReplayAfterReads(w, probes, [Cache(Del(attemptsKey))]);
    ReplayCons(w, Cache(Del(attemptsKey)), []);
  }

  /** A wrong code consumes one attempt (120 s expiry on the first). The
      third failure deletes both the code and the counter and blocks;
      earlier ones answer with 3 minus the count left and keep the code. */
  lemma MfaWrongCode(w: World, p: Primitives, username: string, code: string, u: User, phone: string)
    requires Identified(w, p, username, code, u, phone)
    requires !AtThreshold(w.store, MfaAttempts(u.id))
    requires Read(w.store, MfaCode(u.id)).Some?
    requires Read(w.store, MfaCode(u.id)).value !in {"", Trim(code)}
    requires IncrReply(w.store, MfaAttempts(u.id)).Some?
    ensures var n := IncrReply(w.store, MfaAttempts(u.id)).value;
      var r := VerifyMfa(w, p, username, code);
      var w' := r.After(w);
      && n <= MaxAttempts
      && w'.users == w.users
      && (n >= MaxAttempts ==>
            r.result == MfaBlocked && w'.store == w.store - {MfaCode(u.id), MfaAttempts(u.id)})
      && (n < MaxAttempts ==>
            && r.result == CodeRejected(MaxAttempts - n)
            && LoginProperties.CountedOnce(w.store, w'.store, MfaAttempts(u.id), n, CodeWindow))
  {
    VerifyIsLookupThenCheck(w, p, username, code, u, phone);
    var codeKey := MfaCode(u.id);
    var attemptsKey := MfaAttempts(u.id);
    var n := IncrReply(w.store, attemptsKey).value;
    var probes := [Cache(Get(attemptsKey)), Cache(Get(codeKey))];
    var counted := probes + CountFailure(w.store, attemptsKey, CodeWindow);
    LoginProperties.CountFailureEffect(w, attemptsKey, CodeWindow, probes);
    if n >= MaxAttempts {
      var w1 := Replay(w, counted);
      var dels := [Cache(Del(codeKey)), Cache(Del(attemptsKey))];
      ReplayConcat(w, counted, dels);
      ReplayCons(w1, dels[0], dels[1..]);
      assert dels[1..] == [dels[1]] + [];
      ReplayCons(Apply(w1, dels[0]), dels[1], []);
      var a := Replay(w, counted + dels).store;
      assert a == w1.store - {codeKey} - {attemptsKey} == w1.store - {codeKey, attemptsKey};
      DeleteDifference(w.store, w1.store, attemptsKey, {codeKey, attemptsKey});
    }
  }

  /** A wrong code whose attempt counter INCR rejects (not a 64-bit integer,
      or already at the top of that range) answers 500: the code stays
      cached and nothing changes. */
  lemma MfaCounterNotInteger(w: World, p: Primitives, username: string, code: string, u: User, phone: string)
    requires Identified(w, p, username, code, u, phone)
    requires !AtThreshold(w.store, MfaAttempts(u.id))
    requires Read(w.store, MfaCode(u.id)).Some?
    requires Read(w.store, MfaCode(u.id)).value !in {"", Trim(code)}
    requires IncrReply(w.store, MfaAttempts(u.id)).None?
    ensures var r := VerifyMfa(w, p, username, code);
      r.result == MfaFailed(CounterNotInteger) && r.After(w) == w
  {
    VerifyIsLookupThenCheck(w, p, username, code, u, phone);
    var attemptsKey := MfaAttempts(u.id);
    var probes := [Cache(Get(attemptsKey)), Cache(Get(MfaCode(u.id)))];
    ReplayAfterReads(w, probes, [Cache(Incr(attemptsKey))]);
    ReplayCons(w, Cache(Incr(attemptsKey)), []);
  }

  /** The matching code (compared as the exact trimmed string) deletes the
      code and the counter and authenticates with a token minted from the
      id, the username and the decrypted phone. */
  lemma MfaMatchingCode(w: World, p: Primitives, username: string, code: string, u: User, phone: string)
    requires Identified(w, p, username, code, u, phone)
    requires !AtThreshold(w.store, MfaAttempts(u.id))
    requires Read(w.store, MfaCode(u.id)) == Some(Trim(code))
    ensures var r := VerifyMfa(w, p, username, code);
      var profile := Profile(u.id, u.username, phone);
      && r.result == Authenticated(p.mintToken(profile), profile)
      && r.After(w) == World(w.store - {MfaCode(u.id), MfaAttempts(u.id)}, w.users)
  {
    VerifyIsLookupThenCheck(w, p, username, code, u, phone);
    var codeKey := MfaCode(u.id);
    var attemptsKey := MfaAttempts(u.id);
    var probes := [Cache(Get(attemptsKey)), Cache(Get(codeKey))];
    var dels := [Cache(Del(codeKey)), Cache(Del(attemptsKey))];
    ReplayAfterReads(w, probes, dels);
    ReplayCons(w, dels[0], dels[1..]);
    assert dels[1..] == [dels[1]] + [];
    ReplayCons(Apply(w, dels[0]), dels[1], []);
    assert Replay(w, dels).store == w.store - {codeKey, attemptsKey};
  }

  /** Past the gates, the request authenticates exactly when the cached code
      is the submitted one after trimming. */
  lemma MfaAuthenticatesIffCodeMatches(w: World, p: Primitives, username: string, code: string, u: User, phone: string)
    requires Identified(w, p, username, code, u, phone)
    requires !AtThreshold(w.store, MfaAttempts(u.id))
    ensures VerifyMfa(w, p, username, code).result.Authenticated? <==> Read(w.store, MfaCode(u.id)) == Some(Trim(code))
  {
    VerifyIsLookupThenCheck(w, p, username, code, u, phone);
  }
}
