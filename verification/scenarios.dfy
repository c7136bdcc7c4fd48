/** Concrete request sequences worked through the model: a lock-out on an
    unknown name, a lock-out on wrong codes that forces a new login, the code
    format gate with trimming, and the case-insensitive counter. */
module Scenarios {
  import opened Optional
  import opened Strings
  import opened Redis
  import opened Users
  import opened Effects
  import opened Auth
  import LoginProperties
  import MfaProperties

  /** Stand-ins for the primitives: a "hash" that prefixes the password, a
      phone field stored in clear, a digest that prefixes the token. */
  const Demo := Primitives(
    (pw: string, h: string) => h == "h:" + pw,
    (pw: string) => "h:" + pw,
    (f: string) => Some(f),
    (t: string) => "d:" + t,
    (pr: Profile) => "jwt")

  const Alice := User(7, "alice", "h:secret", "+5511999990000")

  /** Four logins as a name nobody has: 401 with 2 left, 401 with 1 left, 429,
      and then 429 after reading the counter alone, whatever codes are drawn. */
  lemma GhostLocksOut(draw: nat)
    requires 1 <= draw <= 999
    ensures var w0 := World(map[], [Alice]);
      var r1 := Login(w0, Demo, "ghost", "pw", draw, true);
      var w1 := r1.After(w0);
      var r2 := Login(w1, Demo, "ghost", "pw", draw, true);
      var w2 := r2.After(w1);
      var r3 := Login(w2, Demo, "ghost", "pw", draw, true);
      var w3 := r3.After(w2);
      var r4 := Login(w3, Demo, "ghost", "pw", draw, true);
      && r1.result == LoginRejected(2)
      && r2.result == LoginRejected(1)
      && r3.result == LoginBlocked
      && r4.result == LoginBlocked
      && r4.calls == [Cache(Get(LoginAttempts("ghost")))]
  {
    var key := LoginAttempts("ghost");
    assert ToLower("ghost") == "ghost";
    var w0 := World(map[], [Alice]);
    assert FindByName(w0.users, "ghost") == None;
    LoginProperties.LoginFailureConsumesOneAttempt(w0, Demo, "ghost", "pw", draw, true);
    var w1 := Login(w0, Demo, "ghost", "pw", draw, true).After(w0);
    assert w1.store[key].value == Count(1);
    LoginProperties.LoginFailureConsumesOneAttempt(w1, Demo, "ghost", "pw", draw, true);
    var w2 := Login(w1, Demo, "ghost", "pw", draw, true).After(w1);
    assert w2.store[key].value == Count(2);
    LoginProperties.LoginFailureConsumesOneAttempt(w2, Demo, "ghost", "pw", draw, true);
    var w3 := Login(w2, Demo, "ghost", "pw", draw, true).After(w2);
    assert w3.store[key].value == Count(3);
    LoginProperties.LoginBlockedBeforeLookup(w3, Demo, "ghost", "pw", draw, true);
  }

  /** With a code cached, one other well-formed code submitted three times
      answers 401 (2 left), 401 (1 left) and 429; the cached code then finds
      nothing and is told it expired. */
  lemma WrongCodesForceNewLogin(code: string, wrong: string)
    requires IsCodeFormat(code) && IsCodeFormat(wrong) && wrong != code
    ensures var w0 := World(map[MfaCode(7) := Entry(Text(code), Some(CodeLifetime))], [Alice]);
      var r1 := VerifyMfa(w0, Demo, "alice", wrong);
      var w1 := r1.After(w0);
      var r2 := VerifyMfa(w1, Demo, "alice", wrong);
      var w2 := r2.After(w1);
      var r3 := VerifyMfa(w2, Demo, "alice", wrong);
      var w3 := r3.After(w2);
      var r4 := VerifyMfa(w3, Demo, "alice", code);
      && r1.result == CodeRejected(2)
      && r2.result == CodeRejected(1)
      && r3.result == MfaBlocked
      && r4.result == CodeExpired
  {
    var codeKey, attemptsKey := MfaCode(7), MfaAttempts(7);
    var w0 := World(map[codeKey := Entry(Text(code), Some(CodeLifetime))], [Alice]);
    var phone := Alice.phone;
    DigitsTrimToThemselves(wrong);
    DigitsTrimToThemselves(code);
    assert FindByName([Alice], "alice") == Some(Alice);
    MfaProperties.MfaWrongCode(w0, Demo, "alice", wrong, Alice, phone);
    var w1 := VerifyMfa(w0, Demo, "alice", wrong).After(w0);
    assert SameAt(w0.store, w1.store, codeKey);
    MfaProperties.MfaWrongCode(w1, Demo, "alice", wrong, Alice, phone);
    var w2 := VerifyMfa(w1, Demo, "alice", wrong).After(w1);
    assert SameAt(w1.store, w2.store, codeKey);
    MfaProperties.MfaWrongCode(w2, Demo, "alice", wrong, Alice, phone);
    var w3 := VerifyMfa(w2, Demo, "alice", wrong).After(w2);
    assert codeKey !in w3.store && attemptsKey !in w3.store;
    MfaProperties.MfaExpiredCode(w3, Demo, "alice", code, Alice, phone);
  }

  const CodeCached := World(map[MfaCode(7) := Entry(Text("042"), Some(CodeLifetime))], [Alice])

  /** "7" is refused as malformed, before any query, and changes nothing. */
  lemma ShortCodeIsMalformed()
    ensures VerifyMfa(CodeCached, Demo, "alice", "7").result == MalformedCode
    ensures VerifyMfa(CodeCached, Demo, "alice", "7").calls == []
  {
    var c := "7";
    assert !IsCodeFormat(Trim(c)) by { DigitsTrimToThemselves(c); }
    MfaProperties.MfaFormatGate(CodeCached, Demo, "alice", c);
  }

  /** Trimming drops the spaces around a code. */
  lemma PaddedCodeTrims()
    ensures Trim(" 042 ") == "042"
  {
    var c, d := " 042 ", "042 ";
    assert IsJsWhitespace(c[0]) && c[1..] == d;
    assert !IsJsWhitespace(d[0]);
    assert TrimStart(c) == d;
    assert IsJsWhitespace(d[3]) && d[..3] == "042";
    assert TrimEnd(d) == TrimEnd("042") == "042";
  }

  /** " 042 " is trimmed and matches the cached "042". */
  lemma PaddedCodeMatches()
    ensures VerifyMfa(CodeCached, Demo, "alice", " 042 ").result == Authenticated("jwt", Profile(7, "alice", Alice.phone))
  {
    var c := " 042 ";
    PaddedCodeTrims();
    assert FindByName([Alice], "alice") == Some(Alice);
    MfaProperties.MfaMatchingCode(CodeCached, Demo, "alice", c, Alice, Alice.phone);
  }

  /** A login counter holding the text "5" (written by something other than
      INCR) is read through `Number`: the login is refused after the counter
      read alone, and an INCR on it would reply 6. */
  lemma NumericTextCounterBlocks(draw: nat)
    requires 1 <= draw <= 999
    ensures var w := World(map[LoginAttempts("bob") := Entry(Text("5"), None)], [Alice]);
      var r := Login(w, Demo, "bob", "pw", draw, true);
      && r.result == LoginBlocked
      && r.calls == [Cache(Get(LoginAttempts("bob")))]
      && IncrReply(w.store, LoginAttempts("bob")) == Some(6)
  {
    var five := "5";
    assert ToLower("bob") == "bob";
    IntegerTextRoundTrip(5);
    assert IntToDecimal(5) == five;
  }

  /** "Alice" and "alice" count against one counter. */
  lemma NamesShareCounter()
    ensures RedisKey(LoginAttempts(ToLower("Alice"))) == "auth:login:alice:attempts"
  {
    assert ToLower("Alice") == "alice";
  }
}
