/** What a request does to the outside world: the ordered Redis commands,
    database queries and SMS sends it issues. An operation returns its result
    and that call sequence; replaying the calls gives the new store and table. */
module Effects {
  import Redis
  import Users

  datatype Call =
    | Cache(command: Redis.Command)
    | Db(query: Users.Query)
    | Sms(to: string, body: string)

  datatype World = World(store: Redis.Store, users: Users.Table)

  function Apply(w: World, c: Call): World {
    match c
    case Cache(cmd) => w.(store := Redis.Exec(w.store, cmd))
    case Db(q) => w.(users := Users.Exec(w.users, q))
    case Sms(_, _) => w
  }

  function Replay(w: World, calls: seq<Call>): World
    decreases |calls|
  {
    if calls == [] then w else Replay(Apply(w, calls[0]), calls[1..])
  }

  datatype Step<+R> = Step(result: R, calls: seq<Call>) {
    function After(w: World): World {
      Replay(w, calls)
    }
  }

  lemma ReplayCons(w: World, c: Call, rest: seq<Call>)
    ensures Replay(w, [c] + rest) == Replay(Apply(w, c), rest)
  {
    assert ([c] + rest)[1..] == rest;
  }

  /** Replaying two call sequences one after the other is replaying their concatenation. */
  lemma {:induction false} ReplayConcat(w: World, a: seq<Call>, b: seq<Call>)
    ensures Replay(w, a + b) == Replay(Replay(w, a), b)
    decreases |a|
  {
    if a != [] {
      assert (a + b)[1..] == a[1..] + b;
      ReplayConcat(Apply(w, a[0]), a[1..], b);
    } else {
      assert a + b == b;
    }
  }

  /** A call that cannot change the store: a read, a query or an SMS. */
  predicate KeepsStore(c: Call) {
    !c.Cache? || c.command.Get?
  }

  /** A call that cannot change the user table. */
  predicate KeepsUsers(c: Call) {
    !(c.Db? && c.query.UpdatePassword?)
  }

  lemma {:induction false} ReplayKeeps(w: World, calls: seq<Call>)
    ensures (forall i :: 0 <= i < |calls| ==> KeepsStore(calls[i])) ==> Replay(w, calls).store == w.store
    ensures (forall i :: 0 <= i < |calls| ==> KeepsUsers(calls[i])) ==> Replay(w, calls).users == w.users
    decreases |calls|
  {
    if calls != [] {
      ReplayKeeps(Apply(w, calls[0]), calls[1..]);
      assert forall i :: 1 <= i < |calls| ==> calls[1..][i - 1] == calls[i];
    }
  }

  /** Calls that neither write the store nor update the table can be skipped. */
  lemma ReplayAfterReads(w: World, before: seq<Call>, tail: seq<Call>)
    requires forall i :: 0 <= i < |before| ==> KeepsStore(before[i]) && KeepsUsers(before[i])
    ensures Replay(w, before + tail) == Replay(w, tail)
  {
    ReplayConcat(w, before, tail);
    ReplayKeeps(w, before);
  }

  /** Calls that only read leave the world as it was. */
  lemma ReplayOfReads(w: World, calls: seq<Call>)
    requires forall i :: 0 <= i < |calls| ==> KeepsStore(calls[i]) && KeepsUsers(calls[i])
    ensures Replay(w, calls) == w
  {
    ReplayKeeps(w, calls);
  }

  /** The store a call sequence leaves does not depend on the user table. */
  lemma {:induction false} StoreIgnoresUsers(w1: World, w2: World, calls: seq<Call>)
    requires w1.store == w2.store
    ensures Replay(w1, calls).store == Replay(w2, calls).store
    decreases |calls|
  {
    if calls != [] {
      StoreIgnoresUsers(Apply(w1, calls[0]), Apply(w2, calls[0]), calls[1..]);
    }
  }
}
