/**
 The fragment of Redis that the login code relies on: integer counters, keys with an
 optional expiry, and a clock that never runs backwards. Times are in milliseconds.
 */
module Redis {
  import opened Wrappers

  const SECOND: int := 1000

  /** The three kinds of key the login code builds. */
  datatype Key =
    | RateKey(ip: string)
    | FailKey(username: string)
    | LockKey(username: string)
  {
    /** The text sent to the server. */
    function Render(): string {
      match this
      case RateKey(ip) => "orw:login_rate:" + ip
      case FailKey(username) => "orw:login_fail:" + username
      case LockKey(username) => "orw:lockout:" + username
    }
  }

  /** Working with `Key` values instead of their texts loses nothing: no two keys share a text. */
  lemma KeysNeverCollide(a: Key, b: Key)
    requires a.Render() == b.Render()
    ensures a == b
  {
    var text := a.Render();
    assert text[5] == b.Render()[5] && text[10] == b.Render()[10];
    if a.LockKey? {
      assert a.username == text[12..] && b.username == text[12..];
    } else if a.RateKey? {
      assert a.ip == text[15..] && b.ip == text[15..];
    } else {
      assert a.username == text[15..] && b.username == text[15..];
    }
  }

  datatype Entry = Entry(count: nat, expireAt: Option<int>)

  type Store = map<Key, Entry>

  /** A key whose expiry has been reached is gone, whether or not it was collected. */
  predicate Live(s: Store, now: int, k: Key) {
    k in s && (s[k].expireAt.Some? ==> now < s[k].expireAt.value)
  }

  function CountOf(s: Store, now: int, k: Key): nat {
    if Live(s, now, k) then s[k].count else 0
  }

  /** INCR: creates the key without an expiry, and keeps the expiry of a live one. */
  function AfterIncr(s: Store, now: int, k: Key): Store {
    s[k := if Live(s, now, k) then s[k].(count := s[k].count + 1) else Entry(1, None)]
  }

  /** EXPIRE: no effect on a key that is not there. */
  function AfterExpire(s: Store, now: int, k: Key, seconds: nat): Store {
    if Live(s, now, k) then s[k := s[k].(expireAt := Some(now + seconds * SECOND))] else s
  }

  /** SETEX: replaces the key and its expiry. The text stored under a lock is never read back. */
  function AfterSetEx(s: Store, now: int, k: Key, seconds: nat): Store {
    s[k := Entry(1, Some(now + seconds * SECOND))]
  }

  /** The server as the login code sees it: a store that its commands update in place. */
  class Server {
    var store: Store
    var now: int

    constructor (start: int)
      ensures store == map[] && now == start
    {
      store := map[];
      now := start;
    }

    method Incr(k: Key) returns (count: nat)
      modifies this`store
      ensures store == AfterIncr(old(store), now, k)
      ensures count == CountOf(old(store), now, k) + 1
    {
      if k in store && (store[k].expireAt.None? || now < store[k].expireAt.value) {
        count := store[k].count + 1;
        store := store[k := Entry(count, store[k].expireAt)];
      } else {
        count := 1;
        store := store[k := Entry(1, None)];
      }
    }

    method Expire(k: Key, seconds: nat)
      modifies this`store
      ensures store == AfterExpire(old(store), now, k, seconds)
    {
      if k in store && (store[k].expireAt.None? || now < store[k].expireAt.value) {
        store := store[k := Entry(store[k].count, Some(now + seconds * SECOND))];
      }
    }

    method Exists(k: Key) returns (found: bool)
      ensures found <==> Live(store, now, k)
    {
      found := k in store && (store[k].expireAt.None? || now < store[k].expireAt.value);
    }

    method SetEx(k: Key, seconds: nat)
      modifies this`store
      ensures store == AfterSetEx(old(store), now, k, seconds)
    {
      store := store[k := Entry(1, Some(now + seconds * SECOND))];
    }

    method Delete(first: Key, second: Key)
      modifies this`store
      ensures store == old(store) - {first, second}
    {
      store := store - {first, second};
    }
  }
}
