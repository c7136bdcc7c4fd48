/** Properties of `logoutUser` and `changePassword`. */
module SessionProperties {
  import opened Optional
  import opened Strings
  import opened Redis
  import opened Users
  import opened Effects
  import opened Auth
  import LoginProperties

  /** A token without a usable expiry claim (absent, or 0, which `!exp` also
      rejects) is refused with no store write, and only such a token. */
  lemma LogoutNeedsExpiry(w: World, p: Primitives, authorization: string, exp: Option<int>, nowMillis: nat)
    ensures var r := Logout(w, p, authorization, exp, nowMillis);
      && (r.result == MissingExpiry <==> exp.None? || exp.value == 0)
      && (r.result == MissingExpiry ==> r.calls == [] && r.After(w) == w)
  {
  }

  /** With a usable expiry, logout fails for want of a token exactly when
      the header holds no space, so that `split(" ")[1]` is undefined; it
      then writes nothing. */
  lemma LogoutTokenMissing(w: World, p: Primitives, authorization: string, exp: int, nowMillis: nat)
    requires exp != 0
    ensures var r := Logout(w, p, authorization, Some(exp), nowMillis);
      && (r.result == LogoutFailed(TokenMissing) <==> forall i :: 0 <= i < |authorization| ==> authorization[i] != ' ')
      && (r.result == LogoutFailed(TokenMissing) ==> r.calls == [] && r.After(w) == w)
  {
  }

  /** Logout writes exactly one key, the blacklist entry for the token's
      digest, with a TTL of the seconds the token has left, or 60 when it has
      none left. */
  lemma LogoutRevokesToken(w: World, p: Primitives, authorization: string, exp: int, nowMillis: nat, token: string)
    requires exp != 0
    requires SecondField(authorization) == Some(token)
    ensures var r := Logout(w, p, authorization, Some(exp), nowMillis);
      var key := Revoked(p.tokenDigest(token));
      var remaining := exp - nowMillis / 1000;
      var w' := r.After(w);
      && r.result == LoggedOut
      && w'.users == w.users
      && key in w'.store && w'.store[key].value == Text("true") && w'.store[key].ttl.Some?
      && (remaining > 0 ==> w'.store[key].ttl.value == remaining)
      && (remaining <= 0 ==> w'.store[key].ttl.value == RevocationGrace)
      && (forall k :: k != key ==> SameAt(w.store, w'.store, k))
  {
    var r := Logout(w, p, authorization, Some(exp), nowMillis);
    ReplayCons(w, r.calls[0], []);
    assert r.calls == [r.calls[0]] + [];
  }

  /** Logging out twice with the same token is no error; the second logout
      rewrites the same single key, so at the same clock reading the store is
      as after the first. */
  lemma LogoutTwice(w: World, p: Primitives, authorization: string, exp: int, nowMillis: nat, token: string)
    requires exp != 0
    requires SecondField(authorization) == Some(token)
    ensures var w1 := Logout(w, p, authorization, Some(exp), nowMillis).After(w);
      var r2 := Logout(w1, p, authorization, Some(exp), nowMillis);
      r2.result == LoggedOut && r2.After(w1) == w1
  {
    var w1 := Logout(w, p, authorization, Some(exp), nowMillis).After(w);
    var key := Revoked(p.tokenDigest(token));
    LogoutRevokesToken(w, p, authorization, exp, nowMillis, token);
    LogoutRevokesToken(w1, p, authorization, exp, nowMillis, token);
    var w2 := Logout(w1, p, authorization, Some(exp), nowMillis).After(w1);
    assert w2.store[key] == w1.store[key];
    assert forall k :: SameAt(w1.store, w2.store, k);
    SameEverywhere(w1.store, w2.store);
  }

  /** A second logout with the same token at a later clock reading also
      succeeds: the blacklist entry stays "true" and only its TTL is reset to
      the seconds left at the new reading (or 60); nothing else changes. */
  lemma LogoutAgainLater(w: World, p: Primitives, authorization: string, exp: int,
                         nowMillis: nat, laterMillis: nat, token: string)
    requires exp != 0
    requires SecondField(authorization) == Some(token)
    ensures var key := Revoked(p.tokenDigest(token));
      var w1 := Logout(w, p, authorization, Some(exp), nowMillis).After(w);
      var r2 := Logout(w1, p, authorization, Some(exp), laterMillis);
      var w2 := r2.After(w1);
      && r2.result == LoggedOut
      && w2.users == w1.users
      && key in w1.store && key in w2.store
      && w2.store[key].value == w1.store[key].value
      && w2.store[key].ttl == Some(RevocationTtl(exp - laterMillis / 1000))
      && (forall k :: k != key ==> SameAt(w1.store, w2.store, k))
  {
    var w1 := Logout(w, p, authorization, Some(exp), nowMillis).After(w);
    LogoutRevokesToken(w, p, authorization, exp, nowMillis, token);
    LogoutRevokesToken(w1, p, authorization, exp, laterMillis, token);
  }

  /** A missing id answers 404 and a wrong old password 401, both changing
      nothing; otherwise the rows with that id get the hash of the new
      password and every other field and row stays. The store is never touched. */
  lemma ChangePasswordOutcomes(w: World, p: Primitives, id: Id, oldPassword: string, newPassword: string)
    ensures var r := ChangePassword(w, p, id, oldPassword, newPassword);
      var w' := r.After(w);
      && w'.store == w.store
      && (FindById(w.users, id).None? ==> r.result == UserNotFound && w' == w)
      && (FindById(w.users, id).Some? && !p.passwordMatches(oldPassword, FindById(w.users, id).value.passwordHash) ==>
            r.result == WrongPassword && w' == w)
      && (FindById(w.users, id).Some? && p.passwordMatches(oldPassword, FindById(w.users, id).value.passwordHash) ==>
            && r.result == PasswordChanged
            && |w'.users| == |w.users|
            && (forall i :: 0 <= i < |w.users| && w.users[i].id == id ==>
                  w'.users[i] == w.users[i].(passwordHash := p.hashPassword(newPassword)))
            && (forall i :: 0 <= i < |w.users| && w.users[i].id != id ==> w'.users[i] == w.users[i]))
  {
    var r := ChangePassword(w, p, id, oldPassword, newPassword);
    var select := [Db(SelectById(id))];
    match FindById(w.users, id)
    case None =>
      ReplayOfReads(w, select);
    case Some(u) =>
      if !p.passwordMatches(oldPassword, u.passwordHash) {
        ReplayOfReads(w, select);
      } else {
        var update := Db(UpdatePassword(id, p.hashPassword(newPassword)));
        ReplayAfterReads(w, select, [update]);
        ReplayCons(w, update, []);
        assert [update] + [] == [update];
      }
  }

  /** bcrypt as an ideal primitive: a hash accepts its own password and no
      other. Real bcrypt reads only the first 72 bytes of a password, so two
      passwords sharing those bytes are not told apart. */
  ghost predicate IdealHashing(p: Primitives) {
    forall a, b :: p.passwordMatches(a, p.hashPassword(b)) <==> a == b
  }

  /** A password update keeps usernames, so it keeps them unique. */
  lemma SetPasswordHashKeepsNames(t: Table, id: Id, hash: string)
    requires UniqueNames(t)
    ensures UniqueNames(SetPasswordHash(t, id, hash))
    ensures forall i :: 0 <= i < |t| ==> SetPasswordHash(t, id, hash)[i].username == t[i].username
  {
    var t' := SetPasswordHash(t, id, hash);
    forall i | 0 <= i < |t|
      ensures t'[i].username == t[i].username
    {
      assert t'[i] == t[i] || t'[i] == t[i].(passwordHash := hash);
    }
  }

  /** After a successful password change, logging in with the new password
      reaches the SMS challenge, and the old password (if different) is
      refused like any wrong password. */
  lemma PasswordChangeThenLogin(w: World, p: Primitives, i: nat, oldPassword: string, newPassword: string,
                                draw: nat, delivered: bool)
    requires IdealHashing(p)
    requires UniqueIds(w.users) && UniqueNames(w.users)
    requires i < |w.users| && p.decryptField(w.users[i].phone).Some?
    requires ChangePassword(w, p, w.users[i].id, oldPassword, newPassword).result == PasswordChanged
    requires 1 <= draw <= 999
    requires !AtThreshold(w.store, LoginAttempts(ToLower(w.users[i].username)))
    ensures var w' := ChangePassword(w, p, w.users[i].id, oldPassword, newPassword).After(w);
      && Login(w', p, w.users[i].username, newPassword, draw, true).result.ChallengeIssued?
      && (oldPassword != newPassword ==> !Login(w', p, w.users[i].username, oldPassword, draw, delivered).result.ChallengeIssued?)
  {
    var u := w.users[i];
    var w' := ChangePassword(w, p, u.id, oldPassword, newPassword).After(w);
    ChangePasswordOutcomes(w, p, u.id, oldPassword, newPassword);
    SetPasswordHashKeepsNames(w.users, u.id, p.hashPassword(newPassword));
    var u' := u.(passwordHash := p.hashPassword(newPassword));
    assert w'.users[i] == u';
    assert FindByName(w'.users, u.username) == Some(u');
    assert p.passwordMatches(newPassword, u'.passwordHash);
    LoginProperties.LoginSuccessIssuesChallenge(w', p, u.username, newPassword, draw, u', p.decryptField(u.phone).value);
    if oldPassword != newPassword {
      assert !p.passwordMatches(oldPassword, u'.passwordHash);
    }
  }
}
