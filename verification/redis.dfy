/** The shared key-value store (Redis) as the controller uses it: attempt
    counters, the cached verification code and the token blacklist, each entry
    carrying the TTL it was given. Time does not pass in this model; a TTL is
    an attribute of the entry, and expiry is an explicit removal. */
module Redis {
  import opened Optional
  import opened Strings
  import Users

  type Id = Users.Id

  /** A TTL in seconds as SETEX and EXPIRE accept it (Redis refuses 0 in SETEX). */
  type Seconds = n: nat | n > 0 witness 1

  datatype Key =
    | LoginAttempts(name: string)   // auth:login:<name>:attempts
    | MfaCode(user: Id)             // mfa:login:<id>
    | MfaAttempts(user: Id)         // mfa:login:<id>:attempts
    | Revoked(digest: string)       // blacklist:jwt:<digest>

  /** The key string the controller builds for each kind of entry. */
  function RedisKey(k: Key): string {
    match k
    case LoginAttempts(name) => "auth:login:" + name + ":attempts"
    case MfaCode(id) => "mfa:login:" + NatToDecimal(id)
    case MfaAttempts(id) => "mfa:login:" + NatToDecimal(id) + ":attempts"
    case Revoked(digest) => "blacklist:jwt:" + digest
  }

  /** Distinct entries never share a Redis key, so a structured key stands for
      its string faithfully: no counter can clobber a code or a blacklist entry. */
  lemma RedisKeyInjective(a: Key, b: Key)
    ensures RedisKey(a) == RedisKey(b) ==> a == b
  {
    if a.MfaCode? && b.MfaAttempts? {
      CodeAndAttemptKeysDiffer(a.user, b.user);
    }
    if a.MfaAttempts? && b.MfaCode? {
      CodeAndAttemptKeysDiffer(b.user, a.user);
    }
    if RedisKey(a) == RedisKey(b) {
      var s := RedisKey(a);
      match a
      case LoginAttempts(x) =>
        assert s[0] == 'a';
        var y := b.name;
        assert x == s[11..|s| - 9] == y;
      case Revoked(x) =>
        assert s[0] == 'b';
        assert x == s[14..] == b.digest;
      case MfaCode(i) =>
        assert s[0] == 'm';
        var di := NatToDecimal(i);
        assert s[10..] == di;
        assert di == NatToDecimal(b.user);
        NatToDecimalInjective(i, b.user);
      case MfaAttempts(i) =>
        assert s[0] == 'm';
        var di := NatToDecimal(i);
        assert s[10..] == di + ":attempts";
        var dj := NatToDecimal(b.user);
        assert s[10..|s| - 9] == di == dj;
        NatToDecimalInjective(i, b.user);
    }
  }

  /** A user's code key is never another user's attempt key: a decimal id
      has no ':' in it. */
  lemma CodeAndAttemptKeysDiffer(i: Id, j: Id)
    ensures RedisKey(MfaCode(i)) != RedisKey(MfaAttempts(j))
  {
    var di, dj := NatToDecimal(i), NatToDecimal(j);
    var x, y := RedisKey(MfaCode(i)), RedisKey(MfaAttempts(j));
    if |x| == |y| {
      var p := 10 + |dj|;
      assert y[p] == ':';
      assert x[p] == di[|dj|];
      assert x[p] != y[p];
    }
  }

  /** A stored string. What INCR writes is kept as the integer `Count`, whose
      string is its decimal rendering; what SETEX writes is kept as `Text`. */
  datatype Value = Count(n: int) | Text(s: string)

  datatype Entry = Entry(value: Value, ttl: Option<Seconds>)

  type Store = map<Key, Entry>

  /** `raw ? Number(raw) : 0` followed by `>= 3`: whether a counter read stops
      the request. Text that `Number` reads as NaN is below the threshold. */
  predicate AtThreshold(st: Store, k: Key) {
    k in st &&
    match st[k].value
    case Count(n) => n >= 3
    case Text(s) => NumberValue(s).Some? && NumberValue(s).value >= 3
  }

  /** The string GET returns, None for a missing key. */
  function Read(st: Store, k: Key): (r: Option<string>)
    ensures r.None? <==> k !in st
  {
    if k !in st then None
    else match st[k].value
      case Count(n) => Some(IntToDecimal(n))
      case Text(s) => Some(s)
  }

  /** The integer a stored value holds for INCR; None when it holds none
      (an integer written as `Count` is stored by Redis only in the 64-bit
      range). */
  function CounterValue(v: Value): Option<int> {
    match v
    case Count(n) => if InRedisRange(n) then Some(n) else None
    case Text(s) => RedisInteger(s)
  }

  /** The reply of INCR: one more than the stored integer (a missing key counts
      as 0), or None for the error Redis raises on a value that is not an
      integer, or when the increment would leave the 64-bit range. */
  function IncrReply(st: Store, k: Key): Option<int> {
    if k !in st then Some(1)
    else match CounterValue(st[k].value)
      case None => None
      case Some(n) => if n < MaxRedisInteger then Some(n + 1) else None
  }

  /** The threshold test agrees with reading the raw string GET returns: a
      missing or empty value counts as 0, anything else goes through `Number`. */
  lemma AtThresholdReadsRaw(st: Store, k: Key)
    ensures AtThreshold(st, k) <==>
      var raw := Read(st, k);
      raw.Some? && raw.value != "" && NumberValue(raw.value).Some? && NumberValue(raw.value).value >= 3
  {
    if k in st && st[k].value.Count? {
      IntegerTextRoundTrip(st[k].value.n);
    }
  }

  /** INCR agrees with parsing the raw string GET returns. */
  lemma IncrReplyReadsRaw(st: Store, k: Key)
    ensures IncrReply(st, k) ==
      match Read(st, k)
      case None => Some(1)
      case Some(raw) =>
        if RedisInteger(raw).Some? && RedisInteger(raw).value < MaxRedisInteger then Some(RedisInteger(raw).value + 1)
        else None
  {
    if k in st && st[k].value.Count? {
      IntegerTextRoundTrip(st[k].value.n);
    }
  }

  datatype Command =
    | Get(key: Key)
    | Incr(key: Key)
    | Expire(key: Key, seconds: Seconds)
    | SetEx(key: Key, seconds: Seconds, text: string)
    | Del(key: Key)

  /** `k` holds the same entry, or is absent, in both stores. */
  predicate SameAt(st: Store, st': Store, k: Key) {
    (k in st <==> k in st') && (k in st ==> st[k] == st'[k])
  }

  /** The effect of one command on the store. INCR keeps the TTL of an
      existing key and creates a missing one without TTL; EXPIRE on a missing
      key does nothing. */
  function Exec(st: Store, c: Command): (st': Store)
    ensures forall k :: k != c.key ==> SameAt(st, st', k)
  {
    match c
    case Get(_) => st
    case Incr(k) =>
      (match IncrReply(st, k)
       case None => st
       case Some(n) => st[k := Entry(Count(n), if k in st then st[k].ttl else None)])
    case Expire(k, t) => if k in st then st[k := st[k].(ttl := Some(t))] else st
    case SetEx(k, t, v) => st[k := Entry(Text(v), Some(t))]
    case Del(k) => st - {k}
  }

  /** GET after a write sees that write: the value SETEX stored, nothing
      after DEL, the reply of a successful INCR as decimal text; a command on
      another key leaves what GET returns alone. */
  lemma GetAfterWrite(st: Store, c: Command, k: Key)
    ensures c.SetEx? && c.key == k ==> Read(Exec(st, c), k) == Some(c.text)
    ensures c == Del(k) ==> Read(Exec(st, c), k) == None
    ensures c == Incr(k) && IncrReply(st, k).Some? ==>
      Read(Exec(st, c), k) == Some(IntToDecimal(IncrReply(st, k).value))
    ensures c.key != k ==> Read(Exec(st, c), k) == Read(st, k)
  {
    assert c.key != k ==> SameAt(st, Exec(st, c), k);
  }

  /** Deleting the one key where two stores differ, along with any others, makes them equal. */
  lemma DeleteDifference(st: Store, st': Store, key: Key, gone: set<Key>)
    requires key in gone
    requires forall k :: k != key ==> SameAt(st, st', k)
    ensures st' - gone == st - gone
  {
    forall k
      ensures (k in st' - gone <==> k in st - gone)
      ensures k in st - gone ==> (st' - gone)[k] == (st - gone)[k]
    {
      assert k !in gone ==> SameAt(st, st', k);
    }
  }

  lemma SameEverywhere(st: Store, st': Store)
    requires forall k :: SameAt(st, st', k)
    ensures st == st'
  {
    forall k
      ensures (k in st <==> k in st') && (k in st ==> st[k] == st'[k])
    {
      assert SameAt(st, st', k);
    }
    assert st.Keys == st'.Keys;
  }
}
