/**
 The proxy configuration, as the blocks it is made of: home servers and pools for the proxy realms,
 then a block for each realm, then the default realms. `safe` turns a realm's name into an identifier.
 */
module ProxyConfig {
  import opened Wrappers

  datatype Realm = Realm(name: string, kind: string, strip: bool)

  datatype Block =
    | HomeServer(name: string)
    | Pool(name: string, server: string)
    | RealmBlock(name: string, pool: Option<string>, strip: Option<bool>)

  const PROXY := "proxy"
  const LOCAL := "local"
  const REJECT := "reject"

  function Proxies(realms: seq<Realm>): seq<Realm> {
    if realms == [] then []
    else (if realms[0].kind == PROXY then [realms[0]] else []) + Proxies(realms[1..])
  }

  function Declared(safe: string -> string, r: Realm): seq<Block> {
    [HomeServer("hs_" + safe(r.name)), Pool("pool_" + safe(r.name), "hs_" + safe(r.name))]
  }

  function Declarations(safe: string -> string, proxies: seq<Realm>, n: nat): (blocks: seq<Block>)
    requires n <= |proxies|
    ensures |blocks| == 2 * n
  {
    if n == 0 then [] else Declarations(safe, proxies, n - 1) + Declared(safe, proxies[n - 1])
  }

  /** A realm of another type than the three known ones has no block. */
  function BlockOf(safe: string -> string, r: Realm): seq<Block> {
    if r.kind == PROXY then [RealmBlock(r.name, Some("pool_" + safe(r.name)), Some(r.strip))]
    else if r.kind == LOCAL then [RealmBlock(r.name, None, Some(r.strip))]
    else if r.kind == REJECT then [RealmBlock(r.name, Some("reject"), None)]
    else []
  }

  function RealmBlocks(safe: string -> string, realms: seq<Realm>, n: nat): seq<Block>
    requires n <= |realms|
  {
    if n == 0 then [] else RealmBlocks(safe, realms, n - 1) + BlockOf(safe, realms[n - 1])
  }

  predicate HasDefault(realms: seq<Realm>) {
    exists i :: 0 <= i < |realms| && realms[i].name in {"DEFAULT", "default", "*"}
  }

  function Defaults(realms: seq<Realm>): seq<Block> {
    if HasDefault(realms) then []
    else [RealmBlock("DEFAULT", None, Some(true)), RealmBlock("NULL", None, Some(true))]
  }

  function Config(safe: string -> string, realms: seq<Realm>): seq<Block> {
    var proxies := Proxies(realms);
    Declarations(safe, proxies, |proxies|) + RealmBlocks(safe, realms, |realms|) + Defaults(realms)
  }

  method GenerateProxyConfig(safe: string -> string, realms: seq<Realm>) returns (blocks: seq<Block>)
    ensures blocks == Config(safe, realms)
  {
    blocks := [];
    var proxies := Proxies(realms);
    for i := 0 to |proxies|
      invariant blocks == Declarations(safe, proxies, i)
    {
      blocks := blocks + Declared(safe, proxies[i]);
    }
    ghost var declarations := blocks;
    for i := 0 to |realms|
      invariant blocks == declarations + RealmBlocks(safe, realms, i)
    {
      if realms[i].kind == PROXY {
        blocks := blocks + [RealmBlock(realms[i].name, Some("pool_" + safe(realms[i].name)), Some(realms[i].strip))];
      } else if realms[i].kind == LOCAL {
        blocks := blocks + [RealmBlock(realms[i].name, None, Some(realms[i].strip))];
      } else if realms[i].kind == REJECT {
        blocks := blocks + [RealmBlock(realms[i].name, Some("reject"), None)];
      }
    }
    var given := HasDefault(realms);
    if !given {
      blocks := blocks + [RealmBlock("DEFAULT", None, Some(true)), RealmBlock("NULL", None, Some(true))];
    }
  }

  // ---------------------------------------------------------------------------
  // References and declarations
  // ---------------------------------------------------------------------------

  predicate Declares(blocks: seq<Block>, pool: string) {
    exists i :: 0 <= i < |blocks| && blocks[i].Pool? && blocks[i].name == pool
  }

  predicate Refers(b: Block, pool: string) {
    b.RealmBlock? && b.pool == Some(pool)
  }

  ghost predicate AllDeclared(blocks: seq<Block>) {
    forall i, pool :: 0 <= i < |blocks| && Refers(blocks[i], pool) ==> Declares(blocks, pool)
  }

  lemma {:induction false} ProxiesAre(realms: seq<Realm>, r: Realm)
    ensures r in Proxies(realms) <==> r in realms && r.kind == PROXY
    decreases |realms|
  {
    if realms != [] {
      ProxiesAre(realms[1..], r);
      assert r in realms <==> r == realms[0] || r in realms[1..];
    }
  }

  lemma {:induction false} DeclarationsAt(safe: string -> string, proxies: seq<Realm>, n: nat, i: nat)
    requires i < n <= |proxies|
    ensures Declarations(safe, proxies, n)[2 * i] == HomeServer("hs_" + safe(proxies[i].name))
    ensures Declarations(safe, proxies, n)[2 * i + 1] == Pool("pool_" + safe(proxies[i].name), "hs_" + safe(proxies[i].name))
    decreases n
  {
    if i < n - 1 {
      DeclarationsAt(safe, proxies, n - 1, i);
    }
  }

  lemma {:induction false} RealmBlocksAre(safe: string -> string, realms: seq<Realm>, n: nat, b: Block)
    requires n <= |realms|
    ensures b in RealmBlocks(safe, realms, n) <==> exists i :: 0 <= i < n && b in BlockOf(safe, realms[i])
    decreases n
  {
    if n > 0 {
      RealmBlocksAre(safe, realms, n - 1, b);
    }
  }

  lemma {:induction false} OnlyRealms(safe: string -> string, realms: seq<Realm>, n: nat)
    requires n <= |realms|
    ensures forall i :: 0 <= i < |RealmBlocks(safe, realms, n)| ==> RealmBlocks(safe, realms, n)[i].RealmBlock?
    decreases n
  {
    if n > 0 {
      OnlyRealms(safe, realms, n - 1);
    }
  }

  lemma {:induction false} OnlyDeclarations(safe: string -> string, proxies: seq<Realm>, n: nat)
    requires n <= |proxies|
    ensures forall i :: 0 <= i < 2 * n ==> !Declarations(safe, proxies, n)[i].RealmBlock?
    decreases n
  {
    if n > 0 {
      OnlyDeclarations(safe, proxies, n - 1);
    }
  }

  lemma ConfigAt(safe: string -> string, realms: seq<Realm>, j: nat)
    requires j < |Config(safe, realms)|
    ensures var proxies := Proxies(realms);
            if j < 2 * |proxies| then Config(safe, realms)[j] == Declarations(safe, proxies, |proxies|)[j]
            else Config(safe, realms)[j].RealmBlock?
  {
    OnlyRealms(safe, realms, |realms|);
  }

  /** The pools are at the odd positions before the realms. */
  lemma PoolsAt(safe: string -> string, realms: seq<Realm>, j: nat)
    requires j < |Config(safe, realms)|
    ensures var b, proxies := Config(safe, realms)[j], Proxies(realms);
            && (b.Pool? <==> j < 2 * |proxies| && j % 2 == 1)
            && (b.Pool? ==> b.name == "pool_" + safe(proxies[j / 2].name))
  {
    var proxies := Proxies(realms);
    ConfigAt(safe, realms, j);
    if j < 2 * |proxies| {
      DeclarationsAt(safe, proxies, |proxies|, j / 2);
      assert j == 2 * (j / 2) + j % 2;
    }
  }

  lemma PoolOf(safe: string -> string, realms: seq<Realm>, i: nat)
    requires i < |Proxies(realms)|
    ensures var blocks := Config(safe, realms);
            && 2 * i + 1 < |blocks| && blocks[2 * i + 1].Pool?
            && blocks[2 * i + 1].name == "pool_" + safe(Proxies(realms)[i].name)
  {
    PoolsAt(safe, realms, 2 * i + 1);
    assert (2 * i + 1) / 2 == i;
  }

  lemma RealmsInConfig(safe: string -> string, realms: seq<Realm>, b: Block)
    requires b.RealmBlock? && b.pool.Some?
    ensures b in Config(safe, realms) <==> exists i :: 0 <= i < |realms| && b in BlockOf(safe, realms[i])
  {
    RealmBlocksAre(safe, realms, |realms|, b);
    OnlyDeclarations(safe, Proxies(realms), |Proxies(realms)|);
  }

  lemma PoolInConfig(safe: string -> string, realms: seq<Realm>, i: nat)
    requires i < |realms| && realms[i].kind == PROXY
    ensures Declares(Config(safe, realms), "pool_" + safe(realms[i].name))
  {
    var proxies := Proxies(realms);
    ProxiesAre(realms, realms[i]);
    var k :| 0 <= k < |proxies| && proxies[k] == realms[i];
    PoolOf(safe, realms, k);
  }

  /** Every pool that is referred to is declared exactly when no realm rejects: its pool has no declaration. */
  lemma AllDeclaredExactly(safe: string -> string, realms: seq<Realm>)
    ensures AllDeclared(Config(safe, realms)) <==> forall i :: 0 <= i < |realms| ==> realms[i].kind != REJECT
  {
    var blocks := Config(safe, realms);
    if exists i :: 0 <= i < |realms| && realms[i].kind == REJECT {
      var i :| 0 <= i < |realms| && realms[i].kind == REJECT;
      RejectIsUndeclared(safe, realms, i);
    } else {
      forall i, pool | 0 <= i < |blocks| && Refers(blocks[i], pool) ensures Declares(blocks, pool) {
        ReferenceIsDeclared(safe, realms, blocks[i], pool);
      }
    }
  }

  lemma KindsAreDifferent()
    ensures PROXY != REJECT && LOCAL != REJECT && PROXY != LOCAL
  {
    assert PROXY[0] == 'p' && LOCAL[0] == 'l' && REJECT[0] == 'r';
  }

  lemma RejectIsUndeclared(safe: string -> string, realms: seq<Realm>, i: nat)
    requires i < |realms| && realms[i].kind == REJECT
    ensures !AllDeclared(Config(safe, realms))
  {
    KindsAreDifferent();
    var blocks := Config(safe, realms);
    var b := RealmBlock(realms[i].name, Some("reject"), None);
    assert b in BlockOf(safe, realms[i]);
    RealmsInConfig(safe, realms, b);
    var at :| 0 <= at < |blocks| && blocks[at] == b;
    assert Refers(blocks[at], "reject");
    forall j | 0 <= j < |blocks| ensures blocks[j].Pool? ==> blocks[j].name != "reject" {
      PoolsAt(safe, realms, j);
      assert "reject"[0] == 'r' && forall s :: ("pool_" + s)[0] == 'p';
    }
    assert !Declares(blocks, "reject");
  }

  lemma ReferenceIsDeclared(safe: string -> string, realms: seq<Realm>, b: Block, pool: string)
    requires b in Config(safe, realms) && Refers(b, pool) && forall i :: 0 <= i < |realms| ==> realms[i].kind != REJECT
    ensures Declares(Config(safe, realms), pool)
  {
    RealmsInConfig(safe, realms, b);
    var i :| 0 <= i < |realms| && b in BlockOf(safe, realms[i]);
    PoolInConfig(safe, realms, i);
  }

  predicate PoolsDiffer(blocks: seq<Block>) {
    forall i, j :: 0 <= i < j < |blocks| && blocks[i].Pool? && blocks[j].Pool? ==> blocks[i].name != blocks[j].name
  }

  /** No pool is declared twice exactly when the proxy realms have different identifiers. */
  lemma PoolsDifferExactly(safe: string -> string, realms: seq<Realm>)
    ensures var proxies := Proxies(realms);
            PoolsDiffer(Config(safe, realms)) <==>
              forall i, j :: 0 <= i < j < |proxies| ==> safe(proxies[i].name) != safe(proxies[j].name)
  {
    var proxies, blocks := Proxies(realms), Config(safe, realms);
    if PoolsDiffer(blocks) {
      forall i, j | 0 <= i < j < |proxies| ensures safe(proxies[i].name) != safe(proxies[j].name) {
        PoolOf(safe, realms, i);
        PoolOf(safe, realms, j);
        assert blocks[2 * i + 1].name != blocks[2 * j + 1].name;
      }
    } else {
      var i, j :| 0 <= i < j < |blocks| && blocks[i].Pool? && blocks[j].Pool? && blocks[i].name == blocks[j].name;
      PoolsAt(safe, realms, i);
      PoolsAt(safe, realms, j);
      SameSuffix(safe(proxies[i / 2].name), safe(proxies[j / 2].name));
    }
  }

  lemma SameSuffix(a: string, b: string)
    requires "pool_" + a == "pool_" + b
    ensures a == b
  {
    assert ("pool_" + a)[5..] == a && ("pool_" + b)[5..] == b;
  }

  // ---------------------------------------------------------------------------
  // The blocks of each realm
  // ---------------------------------------------------------------------------

  /** The block that a realm asks for: its pool and its strip flag, by its type. */
  predicate AsksFor(safe: string -> string, r: Realm, b: Block) {
    && b.RealmBlock? && b.name == r.name
    && ((r.kind == "proxy" && b.pool == Some("pool_" + safe(r.name)) && b.strip == Some(r.strip))
        || (r.kind == "local" && b.pool == None && b.strip == Some(r.strip))
        || (r.kind == "reject" && b.pool == Some("reject") && b.strip == None))
  }

  predicate IsFallback(r: Realm) {
    r.name == "DEFAULT" || r.name == "default" || r.name == "*"
  }

  lemma HasDefaultExactly(realms: seq<Realm>)
    ensures HasDefault(realms) <==> exists r :: r in realms && IsFallback(r)
  {
    if i :| 0 <= i < |realms| && realms[i].name in {"DEFAULT", "default", "*"} {
      assert realms[i] in realms && IsFallback(realms[i]);
    }
    if r :| r in realms && IsFallback(r) {
      var i :| 0 <= i < |realms| && realms[i] == r;
      assert realms[i].name in {"DEFAULT", "default", "*"};
    }
  }

  lemma BlockAskedFor(safe: string -> string, r: Realm, b: Block)
    ensures b in BlockOf(safe, r) <==> AsksFor(safe, r, b)
  {
    KindsAreDifferent();
  }

  /** The realm blocks are those that some realm asks for, and the two fallbacks when no realm is one itself. */
  lemma RealmBlocksExactly(safe: string -> string, realms: seq<Realm>, b: Block)
    requires b.RealmBlock?
    ensures b in Config(safe, realms) <==>
            || (exists r :: r in realms && AsksFor(safe, r, b))
            || ((forall r :: r in realms ==> !IsFallback(r))
                && (b == RealmBlock("DEFAULT", None, Some(true)) || b == RealmBlock("NULL", None, Some(true))))
  {
    RealmBlocksAre(safe, realms, |realms|, b);
    OnlyDeclarations(safe, Proxies(realms), |Proxies(realms)|);
    HasDefaultExactly(realms);
    AskedFor(safe, realms, b);
  }

  lemma AskedFor(safe: string -> string, realms: seq<Realm>, b: Block)
    ensures (exists i :: 0 <= i < |realms| && b in BlockOf(safe, realms[i])) <==> exists r :: r in realms && AsksFor(safe, r, b)
  {
    if i :| 0 <= i < |realms| && b in BlockOf(safe, realms[i]) {
      BlockAskedFor(safe, realms[i], b);
      assert realms[i] in realms;
    }
    if r :| r in realms && AsksFor(safe, r, b) {
      var i :| 0 <= i < |realms| && realms[i] == r;
      BlockAskedFor(safe, r, b);
      assert b in BlockOf(safe, realms[i]);
    }
  }

  /** A proxy realm has its home server and, right behind it, the pool of that server; there are no others. */
  lemma DeclarationsExactly(safe: string -> string, realms: seq<Realm>, j: nat)
    requires j < |Config(safe, realms)|
    ensures var blocks := Config(safe, realms);
            && (blocks[j].HomeServer? ==>
                  && (exists r :: r in realms && r.kind == "proxy" && blocks[j] == HomeServer("hs_" + safe(r.name))
                        && j + 1 < |blocks| && blocks[j + 1] == Pool("pool_" + safe(r.name), "hs_" + safe(r.name))))
            && (blocks[j].Pool? ==> j > 0 && blocks[j - 1] == HomeServer(blocks[j].server))
  {
    var proxies := Proxies(realms);
    ConfigAt(safe, realms, j);
    if j < 2 * |proxies| {
      DeclarationsAt(safe, proxies, |proxies|, j / 2);
      assert j == 2 * (j / 2) + j % 2;
      ProxiesAre(realms, proxies[j / 2]);
      assert j % 2 == 0 ==> Config(safe, realms)[j + 1] == Declarations(safe, proxies, |proxies|)[j + 1];
      assert j % 2 == 1 ==> Config(safe, realms)[j - 1] == Declarations(safe, proxies, |proxies|)[j - 1];
    }
  }
}
