/** What any sequence of requests, and of TTL expiries, does to a store that
    starts empty: every entry has the shape and TTL its kind is written with,
    a login counter never goes past 3 and a code-attempt counter never
    reaches 3. */
module Invariants {
  import opened Optional
  import opened Strings
  import opened Redis
  import opened Users
  import opened Effects
  import opened Auth
  import LoginProperties
  import MfaProperties
  import SessionProperties

  /** The shape of an entry of each kind in a store the requests produced. */
  predicate EntryOk(k: Key, e: Entry) {
    match k
    case LoginAttempts(_) => e.value.Count? && 1 <= e.value.n <= MaxAttempts && e.ttl == Some(LoginWindow)
    case MfaAttempts(_) => e.value.Count? && 1 <= e.value.n < MaxAttempts && e.ttl == Some(CodeWindow)
    case MfaCode(_) => e.value.Text? && IsCodeFormat(e.value.s) && e.ttl == Some(CodeLifetime)
    case Revoked(_) => e.value == Text("true") && e.ttl.Some?
  }

  ghost predicate Reachable(st: Store) {
    forall k :: k in st ==> EntryOk(k, st[k])
  }

  lemma DeleteKeepsReachable(st: Store, gone: set<Key>)
    requires Reachable(st)
    ensures Reachable(st - gone)
  {
  }

  /** One more failed attempt on a counter below its limit keeps the shape. */
  lemma CountedKeepsReachable(st: Store, st': Store, key: Key, n: int, window: Seconds)
    requires Reachable(st)
    requires LoginProperties.CountedOnce(st, st', key, n, window)
    requires EntryOk(key, Entry(Count(n), Some(window)))
    ensures Reachable(st')
  {
    forall k | k in st'
      ensures EntryOk(k, st'[k])
    {
      if k != key {
        assert SameAt(st, st', k);
      } else if n != 1 {
        assert EntryOk(key, st[key]);
      }
    }
  }

  lemma LoginKeepsReachable(w: World, p: Primitives, username: string, password: string,
                            draw: nat, delivered: bool)
    requires 1 <= draw <= 999
    requires Reachable(w.store)
    ensures Reachable(Login(w, p, username, password, draw, delivered).After(w).store)
  {
    var key := LoginAttempts(ToLower(username));
    var r := Login(w, p, username, password, draw, delivered);
    LoginProperties.LoginBlockedBeforeLookup(w, p, username, password, draw, delivered);
    if AtThreshold(w.store, key) {
      return;
    }
    var checked := [Cache(Get(key)), Db(SelectByName(username))];
    if LoginProperties.CredentialsFail(w, p, username, password) {
      assert key in w.store ==> EntryOk(key, w.store[key]);
      LoginProperties.LoginFailureConsumesOneAttempt(w, p, username, password, draw, delivered);
      var n := IncrReply(w.store, key).value;
      CountedKeepsReachable(w.store, r.After(w).store, key, n, LoginWindow);
    } else {
      var u := FindByName(w.users, username).value;
      match p.decryptField(u.phone)
      case None =>
        assert r.calls == checked;
        ReplayOfReads(w, checked);
      case Some(phone) =>
        if delivered {
          LoginProperties.LoginSuccessIssuesChallenge(w, p, username, password, draw, u, phone);
        } else {
          LoginProperties.SmsFailureRollsBack(w, p, username, password, draw, u, phone);
        }
        LoginProperties.VerificationCodeShape(draw);
        var st' := r.After(w).store;
        forall k | k in st'
          ensures EntryOk(k, st'[k])
        {
          if k != key && k != MfaCode(u.id) {
            assert SameAt(w.store, st', k);
          }
        }
    }
  }

  lemma VerifyKeepsReachable(w: World, p: Primitives, username: string, code: string)
    requires Reachable(w.store)
    ensures Reachable(VerifyMfa(w, p, username, code).After(w).store)
  {
    var r := VerifyMfa(w, p, username, code);
    MfaProperties.MfaFormatGate(w, p, username, code);
    if !IsCodeFormat(Trim(code)) || FindByName(w.users, username).None? {
      return;
    }
    var u := FindByName(w.users, username).value;
    if p.decryptField(u.phone).None? {
      ReplayOfReads(w, [Db(SelectByName(username))]);
      return;
    }
    var phone := p.decryptField(u.phone).value;
    var codeKey := MfaCode(u.id);
    var attemptsKey := MfaAttempts(u.id);
    assert attemptsKey in w.store ==> EntryOk(attemptsKey, w.store[attemptsKey]);
    assert !AtThreshold(w.store, attemptsKey);
    var cached := Read(w.store, codeKey);
    if cached.None? || cached.value == "" {
      MfaProperties.MfaExpiredCode(w, p, username, code, u, phone);
    } else if cached.value != Trim(code) {
      MfaProperties.MfaWrongCode(w, p, username, code, u, phone);
      var n := IncrReply(w.store, attemptsKey).value;
      if n < MaxAttempts {
        CountedKeepsReachable(w.store, r.After(w).store, attemptsKey, n, CodeWindow);
      }
    } else {
      MfaProperties.MfaMatchingCode(w, p, username, code, u, phone);
    }
  }

  lemma LogoutKeepsReachable(w: World, p: Primitives, authorization: string, exp: Option<int>, nowMillis: nat)
    requires Reachable(w.store)
    ensures Reachable(Logout(w, p, authorization, exp, nowMillis).After(w).store)
  {
    if exp.Some? && exp.value != 0 && SecondField(authorization).Some? {
      var token := SecondField(authorization).value;
      SessionProperties.LogoutRevokesToken(w, p, authorization, exp.value, nowMillis, token);
      var st' := Logout(w, p, authorization, exp, nowMillis).After(w).store;
      forall k | k in st'
        ensures EntryOk(k, st'[k])
      {
        if k != Revoked(p.tokenDigest(token)) {
          assert SameAt(w.store, st', k);
        }
      }
    }
  }

  /** Everything that can happen to the world: the four requests, and a TTL
      running out on one key. */
  datatype Event =
    | LoginRequest(username: string, password: string, draw: nat, delivered: bool)
    | MfaRequest(username: string, code: string)
    | LogoutRequest(authorization: string, exp: Option<int>, nowMillis: nat)
    | PasswordRequest(id: Id, oldPassword: string, newPassword: string)
    | Lapse(key: Key)

  predicate WellFormed(e: Event) {
    e.LoginRequest? ==> 1 <= e.draw <= 999
  }

  function Handle(w: World, p: Primitives, e: Event): World
    requires WellFormed(e)
  {
    match e
    case LoginRequest(username, password, draw, delivered) => Login(w, p, username, password, draw, delivered).After(w)
    case MfaRequest(username, code) => VerifyMfa(w, p, username, code).After(w)
    case LogoutRequest(authorization, exp, nowMillis) => Logout(w, p, authorization, exp, nowMillis).After(w)
    case PasswordRequest(id, oldPassword, newPassword) => ChangePassword(w, p, id, oldPassword, newPassword).After(w)
    case Lapse(key) => w.(store := w.store - {key})
  }

  function Run(w: World, p: Primitives, events: seq<Event>): World
    requires forall i :: 0 <= i < |events| ==> WellFormed(events[i])
    decreases |events|
  {
    if events == [] then w else Run(Handle(w, p, events[0]), p, events[1..])
  }

  lemma HandleKeepsReachable(w: World, p: Primitives, e: Event)
    requires WellFormed(e)
    requires Reachable(w.store)
    ensures Reachable(Handle(w, p, e).store)
  {
    match e
    case LoginRequest(username, password, draw, delivered) =>
      LoginKeepsReachable(w, p, username, password, draw, delivered);
    case MfaRequest(username, code) =>
      VerifyKeepsReachable(w, p, username, code);
    case LogoutRequest(authorization, exp, nowMillis) =>
      LogoutKeepsReachable(w, p, authorization, exp, nowMillis);
    case PasswordRequest(id, oldPassword, newPassword) =>
      SessionProperties.ChangePasswordOutcomes(w, p, id, oldPassword, newPassword);
    case Lapse(key) =>
      DeleteKeepsReachable(w.store, {key});
  }

  /** Every store reached from an empty one has the expected entry shapes. */
  lemma {:induction false} RunKeepsReachable(w: World, p: Primitives, events: seq<Event>)
    requires forall i :: 0 <= i < |events| ==> WellFormed(events[i])
    requires Reachable(w.store)
    ensures Reachable(Run(w, p, events).store)
    decreases |events|
  {
    if events != [] {
      HandleKeepsReachable(w, p, events[0]);
      RunKeepsReachable(Handle(w, p, events[0]), p, events[1..]);
    }
  }

  /** Starting from an empty store, whatever the requests, a login counter
      never exceeds 3 and a code-attempt counter never reaches 3. */
  lemma CountersStayBounded(users: Table, p: Primitives, events: seq<Event>)
    requires forall i :: 0 <= i < |events| ==> WellFormed(events[i])
    ensures var st := Run(World(map[], users), p, events).store;
      && (forall name :: LoginAttempts(name) in st ==>
            st[LoginAttempts(name)].value.Count? && st[LoginAttempts(name)].value.n <= MaxAttempts)
      && (forall id :: MfaAttempts(id) in st ==>
            st[MfaAttempts(id)].value.Count? && st[MfaAttempts(id)].value.n < MaxAttempts)
  {
    RunKeepsReachable(World(map[], users), p, events);
    var st := Run(World(map[], users), p, events).store;
    forall name | LoginAttempts(name) in st
      ensures st[LoginAttempts(name)].value.Count? && st[LoginAttempts(name)].value.n <= MaxAttempts
    {
      assert EntryOk(LoginAttempts(name), st[LoginAttempts(name)]);
    }
    forall id | MfaAttempts(id) in st
      ensures st[MfaAttempts(id)].value.Count? && st[MfaAttempts(id)].value.n < MaxAttempts
    {
      assert EntryOk(MfaAttempts(id), st[MfaAttempts(id)]);
    }
  }

  /** In a reachable store a refused login always leaves 1 or 2 attempts. */
  lemma LoginRejectionLeavesOneOrTwo(w: World, p: Primitives, username: string, password: string,
                                     draw: nat, delivered: bool)
    requires 1 <= draw <= 999
    requires Reachable(w.store)
    requires Login(w, p, username, password, draw, delivered).result.LoginRejected?
    ensures Login(w, p, username, password, draw, delivered).result.remaining in {1, 2}
  {
    var key := LoginAttempts(ToLower(username));
    assert key in w.store ==> EntryOk(key, w.store[key]);
  }

  /** In a reachable store the code-attempt gate never fires: a 429 from code
      verification only comes from a third wrong code, and then the code is
      gone, so the user must log in again. */
  lemma MfaBlockDestroysCode(w: World, p: Primitives, username: string, code: string)
    requires Reachable(w.store)
    requires VerifyMfa(w, p, username, code).result == MfaBlocked
    ensures var u := FindByName(w.users, username).value;
      && !AtThreshold(w.store, MfaAttempts(u.id))
      && MfaCode(u.id) !in VerifyMfa(w, p, username, code).After(w).store
      && MfaAttempts(u.id) !in VerifyMfa(w, p, username, code).After(w).store
  {
    var u := FindByName(w.users, username).value;
    var phone := p.decryptField(u.phone).value;
    assert MfaAttempts(u.id) in w.store ==> EntryOk(MfaAttempts(u.id), w.store[MfaAttempts(u.id)]);
    MfaProperties.MfaWrongCode(w, p, username, code, u, phone);
  }
}
