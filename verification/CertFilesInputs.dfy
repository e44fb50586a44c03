/**
 What the hash of the certificate files stands for: with a hash that tells texts apart, the same
 certificates and servers and no others, as long as no text holds the separator.
 */
module CertFilesInputs {
  import opened CertFilesHash

  const SEPARATOR := "\n---\n"

  predicate SeparatesAt(text: string, i: nat) {
    i + 5 <= |text| && text[i..i + 5] == SEPARATOR
  }

  /** The separator, put behind the text, is first met at the end of the text. */
  predicate Clean(part: string) {
    forall i :: 0 <= i < |part| ==> !SeparatesAt(part + SEPARATOR, i)
  }

  predicate CleanCert(c: Cert) {
    ':' !in c.kind && Clean("cert:" + c.kind + ":" + c.name) && Clean(c.pem) && Clean(c.chain) && Clean(c.key) && Clean(c.dh)
  }

  predicate CleanServer(s: LdapServer) {
    Clean("ldap_ca:" + s.name) && Clean(s.ca)
  }

  // ---------------------------------------------------------------------------
  // The joined text tells its parts
  // ---------------------------------------------------------------------------

  lemma SeparatorInside(p: string, q: string, rest: string, rest': string)
    requires |p| < |q| && p + SEPARATOR + rest == q + SEPARATOR + rest'
    ensures SeparatesAt(q + SEPARATOR, |p|)
  {
    var whole := q + SEPARATOR + rest';
    assert whole[|p|..|p| + 5] == SEPARATOR by {
      assert (p + SEPARATOR + rest)[|p|..|p| + 5] == SEPARATOR;
    }
    assert whole[|p|..|p| + 5] == (q + SEPARATOR)[|p|..|p| + 5];
  }

  lemma PartNotShorter(p: string, q: string, rest: string, rest': string)
    requires Clean(q) && p + SEPARATOR + rest == q + SEPARATOR + rest'
    ensures |p| >= |q|
  {
    if |p| < |q| {
      SeparatorInside(p, q, rest, rest');
    }
  }

  lemma FirstPartTold(p: string, q: string, rest: string, rest': string)
    requires Clean(p) && Clean(q) && p + SEPARATOR + rest == q + SEPARATOR + rest'
    ensures p == q && rest == rest'
  {
    PartNotShorter(p, q, rest, rest');
    PartNotShorter(q, p, rest', rest);
    assert p == (p + SEPARATOR + rest)[..|p|] && q == (q + SEPARATOR + rest')[..|q|];
    assert rest == (p + SEPARATOR + rest)[|p| + 5..] && rest' == (q + SEPARATOR + rest')[|q| + 5..];
  }

  /** Every part with a separator behind it. */
  function Ended(parts: seq<string>): string {
    if parts == [] then "" else parts[0] + SEPARATOR + Ended(parts[1..])
  }

  lemma {:induction false} EndedOfJoined(parts: seq<string>)
    requires parts != []
    ensures Joined(parts) + SEPARATOR == Ended(parts)
    decreases |parts|
  {
    if |parts| == 1 {
      assert Ended(parts[1..]) == "";
      assert parts[0] + SEPARATOR + "" == parts[0] + SEPARATOR;
    } else {
      EndedOfJoined(parts[1..]);
      assert parts[0] + SEPARATOR + Joined(parts[1..]) + SEPARATOR == parts[0] + SEPARATOR + (Joined(parts[1..]) + SEPARATOR);
    }
  }

  predicate AllClean(parts: seq<string>) {
    forall i :: 0 <= i < |parts| ==> Clean(parts[i])
  }

  lemma {:induction false} EndedTells(parts: seq<string>, parts': seq<string>)
    requires AllClean(parts) && AllClean(parts') && Ended(parts) == Ended(parts')
    ensures parts == parts'
    decreases |parts|
  {
    if parts != [] && parts' != [] {
      FirstPartTold(parts[0], parts'[0], Ended(parts[1..]), Ended(parts'[1..]));
      EndedTells(parts[1..], parts'[1..]);
      assert parts == [parts[0]] + parts[1..] && parts' == [parts'[0]] + parts'[1..];
    }
  }

  // ---------------------------------------------------------------------------
  // The parts tell the rows
  // ---------------------------------------------------------------------------

  function PartsOf(certs: seq<Cert>, servers: seq<LdapServer>): seq<string> {
    CertParts(certs) + ServerParts(servers)
  }

  function Heading(c: Cert): string {
    "cert:" + c.kind + ":" + c.name
  }

  lemma HeadingTells(c: Cert, d: Cert)
    requires ':' !in c.kind && ':' !in d.kind && Heading(c) == Heading(d)
    ensures c.kind == d.kind && c.name == d.name
  {
    var tail, tail' := c.kind + ":" + c.name, d.kind + ":" + d.name;
    assert Heading(c) == "cert:" + tail && Heading(d) == "cert:" + tail';
    assert tail == Heading(c)[5..] && tail' == Heading(d)[5..];
    ColonTells(c.kind, c.name, d.kind, d.name);
  }

  lemma ColonTells(k: string, n: string, k': string, n': string)
    requires ':' !in k && ':' !in k' && k + ":" + n == k' + ":" + n'
    ensures k == k' && n == n'
  {
    var s := k + ":" + n;
    assert s[|k|] == ':' && s[|k'|] == ':' by {
      assert s == k' + ":" + n';
    }
    assert k == s[..|k|] && k' == s[..|k'|] && n == s[|k| + 1..] && n' == s[|k'| + 1..];
  }

  lemma {:induction false} ServersTold(servers: seq<LdapServer>, servers': seq<LdapServer>)
    requires ServerParts(servers) == ServerParts(servers')
    ensures servers == servers'
    decreases |servers|
  {
    if servers != [] && servers' != [] {
      var parts, parts' := ServerParts(servers), ServerParts(servers');
      assert parts[2..] == ServerParts(servers[1..]) && parts'[2..] == ServerParts(servers'[1..]);
      assert parts[0] == "ldap_ca:" + servers[0].name && parts'[0] == "ldap_ca:" + servers'[0].name;
      assert parts[0][8..] == servers[0].name && parts'[0][8..] == servers'[0].name;
      assert parts[1] == servers[0].ca && parts'[1] == servers'[0].ca;
      ServersTold(servers[1..], servers'[1..]);
      assert servers == [servers[0]] + servers[1..] && servers' == [servers'[0]] + servers'[1..];
    }
  }

  /** The first part says what the list begins with. */
  lemma FirstPart(certs: seq<Cert>, servers: seq<LdapServer>)
    ensures certs != [] ==> PartsOf(certs, servers) != [] && PartsOf(certs, servers)[0] == Heading(certs[0])
    ensures certs == [] ==> PartsOf(certs, servers) == ServerParts(servers)
    ensures certs == [] && servers != [] ==> PartsOf(certs, servers) != [] && PartsOf(certs, servers)[0] == "ldap_ca:" + servers[0].name
  {
  }

  lemma CertInFront(certs: seq<Cert>, servers: seq<LdapServer>)
    requires certs != []
    ensures var c := certs[0];
            PartsOf(certs, servers) == [Heading(c), c.pem, c.chain, c.key, c.dh] + PartsOf(certs[1..], servers)
  {
    var c := certs[0];
    assert CertParts(certs) == [Heading(c), c.pem, c.chain, c.key, c.dh] + CertParts(certs[1..]);
  }

  lemma SameBeginning(certs: seq<Cert>, servers: seq<LdapServer>, certs': seq<Cert>, servers': seq<LdapServer>)
    requires PartsOf(certs, servers) == PartsOf(certs', servers') && certs != []
    ensures certs' != []
  {
    FirstPart(certs, servers);
    FirstPart(certs', servers');
    assert Heading(certs[0])[0] == 'c';
    assert servers' != [] ==> ("ldap_ca:" + servers'[0].name)[0] == 'l';
  }

  lemma {:induction false} RowsTold(certs: seq<Cert>, servers: seq<LdapServer>, certs': seq<Cert>, servers': seq<LdapServer>)
    requires forall i :: 0 <= i < |certs| ==> ':' !in certs[i].kind
    requires forall i :: 0 <= i < |certs'| ==> ':' !in certs'[i].kind
    requires PartsOf(certs, servers) == PartsOf(certs', servers')
    ensures certs == certs' && servers == servers'
    decreases |certs|
  {
    if certs == [] {
      if certs' != [] {
        SameBeginning(certs', servers', certs, servers);
      } else {
        FirstPart(certs, servers);
        FirstPart(certs', servers');
        ServersTold(servers, servers');
      }
    } else {
      SameBeginning(certs, servers, certs', servers');
      CertInFront(certs, servers);
      CertInFront(certs', servers');
      var parts, parts' := PartsOf(certs, servers), PartsOf(certs', servers');
      assert parts[5..] == PartsOf(certs[1..], servers) && parts'[5..] == PartsOf(certs'[1..], servers');
      SameCert(certs[0], certs'[0], parts[..5], parts'[..5]);
      RowsTold(certs[1..], servers, certs'[1..], servers');
      assert certs == [certs[0]] + certs[1..] && certs' == [certs'[0]] + certs'[1..];
    }
  }

  lemma SameCert(c: Cert, d: Cert, five: seq<string>, five': seq<string>)
    requires ':' !in c.kind && ':' !in d.kind && five == five'
    requires five == [Heading(c), c.pem, c.chain, c.key, c.dh] && five' == [Heading(d), d.pem, d.chain, d.key, d.dh]
    ensures c == d
  {
    assert five[0] == Heading(c) && five[1] == c.pem && five[2] == c.chain && five[3] == c.key && five[4] == c.dh;
    HeadingTells(c, d);
  }

  // ---------------------------------------------------------------------------
  // The hash tells the rows
  // ---------------------------------------------------------------------------

  ghost predicate Injective(hash: string -> string) {
    forall s, t :: hash(s) == hash(t) ==> s == t
  }

  lemma {:induction false} CleanParts(certs: seq<Cert>, servers: seq<LdapServer>)
    requires forall c :: c in certs ==> CleanCert(c)
    requires forall s :: s in servers ==> CleanServer(s)
    ensures AllClean(PartsOf(certs, servers))
    decreases |certs| + |servers|
  {
    if certs != [] {
      CertInFront(certs, servers);
      CleanParts(certs[1..], servers);
      assert CleanCert(certs[0]);
    } else if servers != [] {
      assert PartsOf(certs, servers) == ["ldap_ca:" + servers[0].name, servers[0].ca] + PartsOf([], servers[1..]);
      CleanParts([], servers[1..]);
      assert CleanServer(servers[0]);
    }
  }

  lemma JoinedTells(certs: seq<Cert>, servers: seq<LdapServer>, certs': seq<Cert>, servers': seq<LdapServer>)
    requires AllClean(PartsOf(certs, servers)) && AllClean(PartsOf(certs', servers'))
    requires Joined(PartsOf(certs, servers)) == Joined(PartsOf(certs', servers'))
    ensures PartsOf(certs, servers) == PartsOf(certs', servers')
  {
    var parts, parts' := PartsOf(certs, servers), PartsOf(certs', servers');
    EmptyJoined(certs, servers);
    EmptyJoined(certs', servers');
    if parts != [] {
      EndedOfJoined(parts);
      EndedOfJoined(parts');
      EndedTells(parts, parts');
    }
  }

  lemma EmptyJoined(certs: seq<Cert>, servers: seq<LdapServer>)
    ensures Joined(PartsOf(certs, servers)) == "" <==> PartsOf(certs, servers) == []
  {
    FirstPart(certs, servers);
    var parts := PartsOf(certs, servers);
    if parts != [] {
      assert parts[0] != "";
      assert |Joined(parts)| >= |parts[0]|;
    }
  }

  lemma SameRows<T>(s: seq<T>, t: seq<T>)
    requires multiset(s) == multiset(t)
    ensures forall x :: x in s ==> x in t
  {
    forall x | x in s ensures x in t {
      assert x in multiset(t);
    }
  }

  /** Two sets of files have one hash if and only if they are made from the same rows, in whatever order. */
  lemma FilesHashExactly(hash: string -> string, o: Order, certs: seq<Cert>, servers: seq<LdapServer>,
                         certs': seq<Cert>, servers': seq<LdapServer>)
    requires Injective(hash) && TotalOrder(o.pairs) && TotalOrder(o.texts)
    requires KeyTells(CertKey, certs) && KeyTells((s: LdapServer) => s.name, servers)
    requires forall c :: c in certs || c in certs' ==> CleanCert(c)
    requires forall s :: s in servers || s in servers' ==> CleanServer(s)
    ensures FilesHash(hash, o, certs, servers) == FilesHash(hash, o, certs', servers') <==>
            multiset(certs) == multiset(certs') && multiset(servers) == multiset(servers')
  {
    if FilesHash(hash, o, certs, servers) == FilesHash(hash, o, certs', servers') {
      HashTells(hash, o, certs, servers, certs', servers');
    }
    if multiset(certs) == multiset(certs') && multiset(servers) == multiset(servers') {
      FilesHashIgnoresOrder(hash, o, certs, servers, certs', servers');
    }
  }

  lemma SortedClean(o: Order, certs: seq<Cert>, servers: seq<LdapServer>, sorted: seq<Cert>, named: seq<LdapServer>)
    requires TotalOrder(o.pairs) && TotalOrder(o.texts)
    requires forall c :: c in certs ==> CleanCert(c)
    requires forall s :: s in servers ==> CleanServer(s)
    requires sorted == SortBy(CertKey, o.pairs, certs) && named == SortBy((s: LdapServer) => s.name, o.texts, servers)
    ensures multiset(sorted) == multiset(certs) && multiset(named) == multiset(servers)
    ensures AllClean(PartsOf(sorted, named)) && forall i :: 0 <= i < |sorted| ==> ':' !in sorted[i].kind
  {
    SortSorts(CertKey, o.pairs, certs);
    SortSorts((s: LdapServer) => s.name, o.texts, servers);
    SameRows(sorted, certs);
    SameRows(named, servers);
    CleanParts(sorted, named);
    forall i | 0 <= i < |sorted| ensures ':' !in sorted[i].kind {
      assert CleanCert(sorted[i]);
    }
  }

  lemma HashTells(hash: string -> string, o: Order, certs: seq<Cert>, servers: seq<LdapServer>,
                  certs': seq<Cert>, servers': seq<LdapServer>)
    requires Injective(hash) && TotalOrder(o.pairs) && TotalOrder(o.texts)
    requires forall c :: c in certs || c in certs' ==> CleanCert(c)
    requires forall s :: s in servers || s in servers' ==> CleanServer(s)
    requires FilesHash(hash, o, certs, servers) == FilesHash(hash, o, certs', servers')
    ensures multiset(certs) == multiset(certs') && multiset(servers) == multiset(servers')
  {
    var sorted, sorted' := SortBy(CertKey, o.pairs, certs), SortBy(CertKey, o.pairs, certs');
    var named := SortBy((s: LdapServer) => s.name, o.texts, servers);
    var named' := SortBy((s: LdapServer) => s.name, o.texts, servers');
    SortedClean(o, certs, servers, sorted, named);
    SortedClean(o, certs', servers', sorted', named');
    JoinedTells(sorted, named, sorted', named');
    RowsTold(sorted, named, sorted', named');
  }

  /** A separator inside a text can stand for one between texts: here two certificates that differ have one joined text. */
  lemma SeparatorInTextCollides(c: Cert, a: string, b: string, d: string)
    ensures Joined(PartsOf([c.(pem := a + SEPARATOR + b, chain := d)], [])) == Joined(PartsOf([c.(pem := a, chain := b + SEPARATOR + d)], []))
  {
    var x, y := c.(pem := a + SEPARATOR + b, chain := d), c.(pem := a, chain := b + SEPARATOR + d);
    var last := [c.key, c.dh];
    CertInFront([x], []);
    CertInFront([y], []);
    assert PartsOf([x], []) == [Heading(x), a + SEPARATOR + b, d] + last;
    assert PartsOf([y], []) == [Heading(y), a, b + SEPARATOR + d] + last;
    ThreeJoined(Heading(x), a + SEPARATOR + b, d, last);
    ThreeJoined(Heading(y), a, b + SEPARATOR + d, last);
  }

  lemma ThreeJoined(p: string, q: string, r: string, last: seq<string>)
    requires last != []
    ensures Joined([p, q, r] + last) == p + SEPARATOR + q + SEPARATOR + r + SEPARATOR + Joined(last)
  {
    var parts := [p, q, r] + last;
    assert parts[1..] == [q, r] + last && parts[1..][1..] == [r] + last && parts[1..][1..][1..] == last;
    assert Joined([r] + last) == r + SEPARATOR + Joined(last);
    assert Joined([q, r] + last) == q + SEPARATOR + (r + SEPARATOR + Joined(last));
  }
}
