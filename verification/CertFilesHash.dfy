/**
 The hash that stands for the certificate files: the inputs are sorted by a key and joined, so that
 the order in which the database returns them does not show. `le` orders the keys.
 */
module CertFilesHash {

  predicate Compares<K(==)>(le: (K, K) -> bool, a: K, b: K) {
    (le(a, b) || le(b, a)) && (le(a, b) && le(b, a) ==> a == b)
  }

  predicate Chains<K>(le: (K, K) -> bool, a: K, b: K, c: K) {
    le(a, b) && le(b, c) ==> le(a, c)
  }

  ghost predicate TotalOrder<K(!new)>(le: (K, K) -> bool) {
    (forall a, b :: Compares(le, a, b)) && forall a, b, c :: Chains(le, a, b, c)
  }

  /** Put `x` after everything whose key is not greater, as a stable sort does. */
  function Place<T, K>(key: T -> K, le: (K, K) -> bool, s: seq<T>, x: T): seq<T> {
    if s == [] || le(key(s[|s| - 1]), key(x)) then s + [x]
    else Place(key, le, s[..|s| - 1], x) + [s[|s| - 1]]
  }

  function SortBy<T, K>(key: T -> K, le: (K, K) -> bool, s: seq<T>): seq<T> {
    if s == [] then [] else Place(key, le, SortBy(key, le, s[..|s| - 1]), s[|s| - 1])
  }

  predicate InOrder<T, K>(key: T -> K, le: (K, K) -> bool, s: seq<T>) {
    forall i, j :: 0 <= i < j < |s| ==> le(key(s[i]), key(s[j]))
  }

  lemma {:induction false} PlaceAt<T, K>(key: T -> K, le: (K, K) -> bool, s: seq<T>, x: T) returns (k: nat)
    ensures k <= |s| && Place(key, le, s, x) == s[..k] + [x] + s[k..]
    ensures k > 0 ==> le(key(s[k - 1]), key(x))
    ensures k < |s| ==> !le(key(s[k]), key(x))
    decreases |s|
  {
    if s == [] || le(key(s[|s| - 1]), key(x)) {
      k := |s|;
    } else {
      k := PlaceAt(key, le, s[..|s| - 1], x);
      assert s[k..] == s[..|s| - 1][k..] + [s[|s| - 1]];
    }
  }

  lemma BetweenKeepsOrder<T, K>(key: T -> K, le: (K, K) -> bool, s: seq<T>, x: T, k: nat)
    requires InOrder(key, le, s) && k <= |s|
    requires forall i :: 0 <= i < k ==> le(key(s[i]), key(x))
    requires forall i :: k <= i < |s| ==> le(key(x), key(s[i]))
    ensures InOrder(key, le, s[..k] + [x] + s[k..])
  {
  }

  lemma PlaceAdds<T, K>(key: T -> K, le: (K, K) -> bool, s: seq<T>, x: T)
    ensures multiset(Place(key, le, s, x)) == multiset(s) + multiset{x}
  {
    var k := PlaceAt(key, le, s, x);
    assert s == s[..k] + s[k..];
  }

  lemma PlaceKeepsOrder<T, K(!new)>(key: T -> K, le: (K, K) -> bool, s: seq<T>, x: T)
    requires TotalOrder(le) && InOrder(key, le, s)
    ensures InOrder(key, le, Place(key, le, s, x))
  {
    var k := PlaceAt(key, le, s, x);
    forall i | 0 <= i < k ensures le(key(s[i]), key(x)) {
      assert Chains(le, key(s[i]), key(s[k - 1]), key(x));
    }
    forall i | k <= i < |s| ensures le(key(x), key(s[i])) {
      assert Compares(le, key(x), key(s[k])) && Chains(le, key(x), key(s[k]), key(s[i]));
    }
    BetweenKeepsOrder(key, le, s, x, k);
  }

  lemma {:induction false} SortSorts<T, K(!new)>(key: T -> K, le: (K, K) -> bool, s: seq<T>)
    requires TotalOrder(le)
    ensures InOrder(key, le, SortBy(key, le, s)) && multiset(SortBy(key, le, s)) == multiset(s)
    decreases |s|
  {
    if s != [] {
      SortSorts(key, le, s[..|s| - 1]);
      PlaceKeepsOrder(key, le, SortBy(key, le, s[..|s| - 1]), s[|s| - 1]);
      PlaceAdds(key, le, SortBy(key, le, s[..|s| - 1]), s[|s| - 1]);
      assert s == s[..|s| - 1] + [s[|s| - 1]];
    }
  }

  /** No two different rows share a key. */
  ghost predicate KeyTells<T(!new), K>(key: T -> K, s: seq<T>) {
    forall x, y :: x in s && y in s && key(x) == key(y) ==> x == y
  }

  lemma SameFirst<T(!new), K(!new)>(key: T -> K, le: (K, K) -> bool, s: seq<T>, t: seq<T>)
    requires TotalOrder(le) && InOrder(key, le, s) && InOrder(key, le, t) && s != [] && t != []
    requires s[0] in t && t[0] in s && KeyTells(key, s)
    ensures s[0] == t[0]
  {
    assert Compares(le, key(s[0]), key(t[0])) && Compares(le, key(s[0]), key(s[0]));
  }

  lemma SameTails<T>(s: seq<T>, t: seq<T>)
    requires multiset(s) == multiset(t) && s != [] && t != [] && s[0] == t[0]
    ensures multiset(s[1..]) == multiset(t[1..])
  {
    assert s == [s[0]] + s[1..] && t == [t[0]] + t[1..];
    assert multiset(s[1..]) == multiset(s) - multiset{s[0]};
    assert multiset(t[1..]) == multiset(t) - multiset{t[0]};
  }

  lemma {:induction false} SortedOnce<T(!new), K(!new)>(key: T -> K, le: (K, K) -> bool, s: seq<T>, t: seq<T>)
    requires TotalOrder(le) && InOrder(key, le, s) && InOrder(key, le, t)
    requires multiset(s) == multiset(t) && KeyTells(key, s)
    ensures s == t
    decreases |s|
  {
    assert |s| == |multiset(s)| == |multiset(t)| == |t|;
    if s != [] {
      assert s[0] in multiset(t) && t[0] in multiset(s);
      SameFirst(key, le, s, t);
      SameTails(s, t);
      SortedOnce(key, le, s[1..], t[1..]);
      assert s == [s[0]] + s[1..] && t == [t[0]] + t[1..];
    }
  }

  lemma SortIgnoresOrder<T(!new), K(!new)>(key: T -> K, le: (K, K) -> bool, s: seq<T>, t: seq<T>)
    requires TotalOrder(le) && multiset(s) == multiset(t) && KeyTells(key, s)
    ensures SortBy(key, le, s) == SortBy(key, le, t)
  {
    SortSorts(key, le, s);
    SortSorts(key, le, t);
    var sorted := SortBy(key, le, s);
    forall x | x in sorted ensures x in s {
      assert x in multiset(sorted);
    }
    SortedOnce(key, le, sorted, SortBy(key, le, t));
  }

  /** The elements with one key, in their order. */
  function WithKey<T, K(==)>(key: T -> K, k: K, s: seq<T>): seq<T> {
    if s == [] then []
    else WithKey(key, k, s[..|s| - 1]) + if key(s[|s| - 1]) == k then [s[|s| - 1]] else []
  }

  lemma WithKeySnoc<T, K>(key: T -> K, k: K, s: seq<T>, x: T)
    ensures WithKey(key, k, s + [x]) == WithKey(key, k, s) + if key(x) == k then [x] else []
  {
    assert (s + [x])[..|s + [x]| - 1] == s;
  }

  lemma {:induction false} WithKeyAfterPair<T, K>(key: T -> K, k: K, a: T, b: T, rest: seq<T>)
    requires key(a) == k && key(b) == k
    ensures WithKey(key, k, [a, b] + rest) == [a, b] + WithKey(key, k, rest)
    decreases |rest|
  {
    if rest == [] {
      assert [a, b] + rest == [a] + [b];
      WithKeySnoc(key, k, [a], b);
      WithKeySnoc(key, k, [], a);
      assert [] + [a] == [a];
    } else {
      var front, last := rest[..|rest| - 1], rest[|rest| - 1];
      WithKeyAfterPair(key, k, a, b, front);
      assert [a, b] + rest == ([a, b] + front) + [last];
      WithKeySnoc(key, k, [a, b] + front, last);
    }
  }

  lemma {:induction false} PlaceIsStable<T, K(!new)>(key: T -> K, le: (K, K) -> bool, s: seq<T>, x: T, k: K)
    requires TotalOrder(le)
    ensures WithKey(key, k, Place(key, le, s, x)) == WithKey(key, k, s) + if key(x) == k then [x] else []
    decreases |s|
  {
    if s == [] || le(key(s[|s| - 1]), key(x)) {
      WithKeySnoc(key, k, s, x);
    } else {
      var front, last := s[..|s| - 1], s[|s| - 1];
      PlaceIsStable(key, le, front, x, k);
      WithKeySnoc(key, k, Place(key, le, front, x), last);
      assert Compares(le, key(x), key(x));
    }
  }

  /** Sorting keeps the order of elements that share a key. */
  lemma {:induction false} SortIsStable<T, K(!new)>(key: T -> K, le: (K, K) -> bool, s: seq<T>, k: K)
    requires TotalOrder(le)
    ensures WithKey(key, k, SortBy(key, le, s)) == WithKey(key, k, s)
    decreases |s|
  {
    if s != [] {
      SortIsStable(key, le, s[..|s| - 1], k);
      PlaceIsStable(key, le, SortBy(key, le, s[..|s| - 1]), s[|s| - 1], k);
    }
  }

  lemma Without<T>(s: seq<T>, x: T) returns (rest: seq<T>)
    requires x in s
    ensures multiset(s) == multiset([x] + rest) && |rest| == |s| - 1
    ensures forall y :: y in s && y != x ==> y in rest
  {
    var i :| 0 <= i < |s| && s[i] == x;
    rest := s[..i] + s[i + 1..];
    assert s == s[..i] + [x] + s[i + 1..];
    forall y | y in s && y != x ensures y in rest {
      var j :| 0 <= j < |s| && s[j] == y;
      assert rest[if j < i then j else j - 1] == y;
    }
  }

  predicate SortAlike<T(==), K>(key: T -> K, le: (K, K) -> bool, s: seq<T>, t: seq<T>) {
    multiset(t) == multiset(s) ==> SortBy(key, le, t) == SortBy(key, le, s)
  }

  ghost predicate OrderIsLost<T(!new), K>(key: T -> K, le: (K, K) -> bool, s: seq<T>) {
    forall t :: SortAlike(key, le, s, t)
  }

  lemma PairInFront<T>(s: seq<T>, x: T, y: T) returns (rest: seq<T>)
    requires x in s && y in s && x != y
    ensures multiset([x, y] + rest) == multiset(s) && multiset([y, x] + rest) == multiset(s)
  {
    var others := Without(s, x);
    rest := Without(others, y);
    assert [x, y] + rest == [x] + ([y] + rest) && [y, x] + rest == [y] + ([x] + rest);
  }

  lemma PairKeepsOrder<T, K(!new)>(key: T -> K, le: (K, K) -> bool, x: T, y: T, rest: seq<T>)
    requires TotalOrder(le) && key(x) == key(y) && x != y
    ensures SortBy(key, le, [x, y] + rest) != SortBy(key, le, [y, x] + rest)
  {
    SortIsStable(key, le, [x, y] + rest, key(x));
    SortIsStable(key, le, [y, x] + rest, key(x));
    WithKeyAfterPair(key, key(x), x, y, rest);
    WithKeyAfterPair(key, key(x), y, x, rest);
    assert ([x, y] + WithKey(key, key(x), rest))[0] != ([y, x] + WithKey(key, key(x), rest))[0];
  }

  lemma OrderIsLostIfTold<T(!new), K(!new)>(key: T -> K, le: (K, K) -> bool, s: seq<T>)
    requires TotalOrder(le) && KeyTells(key, s)
    ensures OrderIsLost(key, le, s)
  {
    forall t ensures SortAlike(key, le, s, t) {
      if multiset(t) == multiset(s) {
        SortIgnoresOrder(key, le, s, t);
      }
    }
  }

  lemma OrderShows<T(!new), K(!new)>(key: T -> K, le: (K, K) -> bool, s: seq<T>, x: T, y: T)
    requires TotalOrder(le) && x in s && y in s && key(x) == key(y) && x != y
    ensures !OrderIsLost(key, le, s)
  {
    var rest := PairInFront(s, x, y);
    PairKeepsOrder(key, le, x, y, rest);
    assert !SortAlike(key, le, s, [x, y] + rest) || !SortAlike(key, le, s, [y, x] + rest);
  }

  /** Sorting forgets the order of the rows exactly when no two different rows share a key. */
  lemma OrderIsLostExactly<T(!new), K(!new)>(key: T -> K, le: (K, K) -> bool, s: seq<T>)
    requires TotalOrder(le)
    ensures OrderIsLost(key, le, s) <==> KeyTells(key, s)
  {
    if KeyTells(key, s) {
      OrderIsLostIfTold(key, le, s);
    } else {
      var x, y :| x in s && y in s && key(x) == key(y) && x != y;
      OrderShows(key, le, s, x, y);
    }
  }

  datatype Cert = Cert(kind: string, name: string, pem: string, chain: string, key: string, dh: string)
  datatype LdapServer = LdapServer(name: string, ca: string)

  function CertKey(c: Cert): (string, string) {
    (c.kind, c.name)
  }

  function CertParts(certs: seq<Cert>): seq<string> {
    if certs == [] then []
    else ["cert:" + certs[0].kind + ":" + certs[0].name, certs[0].pem, certs[0].chain, certs[0].key, certs[0].dh]
         + CertParts(certs[1..])
  }

  function ServerParts(servers: seq<LdapServer>): seq<string> {
    if servers == [] then [] else ["ldap_ca:" + servers[0].name, servers[0].ca] + ServerParts(servers[1..])
  }

  function Joined(parts: seq<string>): string {
    if parts == [] then "" else if |parts| == 1 then parts[0] else parts[0] + "\n---\n" + Joined(parts[1..])
  }

  /** How pairs of texts and texts are compared. */
  datatype Order = Order(pairs: ((string, string), (string, string)) -> bool, texts: (string, string) -> bool)

  function FilesHash(hash: string -> string, o: Order, certs: seq<Cert>, servers: seq<LdapServer>): string {
    hash(Joined(CertParts(SortBy(CertKey, o.pairs, certs)) + ServerParts(SortBy((s: LdapServer) => s.name, o.texts, servers))))
  }

  /** The order of the rows does not reach the hash, as long as type and name tell certificates apart, and names servers. */
  lemma FilesHashIgnoresOrder(hash: string -> string, o: Order, certs: seq<Cert>, servers: seq<LdapServer>,
                              certs': seq<Cert>, servers': seq<LdapServer>)
    requires TotalOrder(o.pairs) && TotalOrder(o.texts)
    requires multiset(certs) == multiset(certs') && multiset(servers) == multiset(servers')
    requires KeyTells(CertKey, certs) && KeyTells((s: LdapServer) => s.name, servers)
    ensures FilesHash(hash, o, certs, servers) == FilesHash(hash, o, certs', servers')
  {
    SortIgnoresOrder(CertKey, o.pairs, certs, certs');
    SortIgnoresOrder((s: LdapServer) => s.name, o.texts, servers, servers');
  }

  /** Two rows with one key, as two tenants may have, keep the order in which they came. */
  lemma SharedKeyShowsOrder<T(!new), K(!new)>(key: T -> K, le: (K, K) -> bool, a: T, b: T)
    requires TotalOrder(le)
    ensures SortBy(key, le, [a, b]) == SortBy(key, le, [b, a]) <==> key(a) != key(b) || a == b
  {
    assert [a, b][..1] == [a] && [b, a][..1] == [b] && [a][..0] == [] && [b][..0] == [];
    assert SortBy(key, le, []) == [] && Compares(le, key(a), key(b));
    assert SortBy(key, le, [a]) == [a] && SortBy(key, le, [b]) == [b];
    assert SortBy(key, le, [a, b]) == Place(key, le, [a], b) && SortBy(key, le, [b, a]) == Place(key, le, [b], a);
    assert Place(key, le, [], b) == [b] && Place(key, le, [], a) == [a];
    assert Place(key, le, [a], b) == if le(key(a), key(b)) then [a, b] else [b, a];
    assert Place(key, le, [b], a) == if le(key(b), key(a)) then [b, a] else [a, b];
    assert [a, b] == [b, a] ==> [a, b][0] == [b, a][0];
  }
}
