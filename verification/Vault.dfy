/**
 The secret vault: a key derived once from the environment, and text stored as base64url of
 version octet, nonce and AEAD output. The cipher, the key derivation and UTF-8 are parameters;
 the laws they are trusted for are the predicates `Sound` and `Separates`.
 */
module Vault {
  import opened Wrappers
  import opened Bytes
  import opened Base64Url

  const VERSION: Byte := 1
  const NONCE_LENGTH := 12
  const TAG_LENGTH := 16
  const MINIMUM_SALT := 8
  const ENV_MASTER := "ORW_SECRET_MASTER"
  const ENV_SALT := "ORW_SECRET_KDF_SALT"

  type Key = Bytes

  type Nonce = n: Bytes | |n| == 12 witness [0, 0, 0, 0, 0, 0, 0, 0, 0, 0, 0, 0]

  datatype Primitives = Primitives(
    seal: (Key, Nonce, Bytes) -> Bytes,
    open: (Key, Nonce, Bytes) -> Option<Bytes>,
    derive: (string, Bytes) -> Key,
    toUtf8: string -> Option<Bytes>,
    fromUtf8: Bytes -> Option<string>)

  /** Opening undoes sealing, which adds a tag; UTF-8 decoding undoes encoding. */
  ghost predicate Sound(p: Primitives) {
    && (forall k: Key, n: Nonce, m: Bytes ::
          |p.seal(k, n, m)| == |m| + TAG_LENGTH && p.open(k, n, p.seal(k, n, m)) == Some(m))
    && (forall s: string :: p.toUtf8(s).Some? ==> p.fromUtf8(p.toUtf8(s).value) == Some(s))
  }

  /** What one key seals, the other does not open. */
  ghost predicate Separates(p: Primitives, other: Key, key: Key) {
    forall n: Nonce, m: Bytes :: p.open(other, n, p.seal(key, n, m)) == None
  }

  datatype Error =
    | MissingVariable | BadSalt | ShortSalt
    | NotBase64 | TooShort | UnknownVersion | InvalidTag
    | NotUtf8

  function Lookup(vars: map<string, string>, name: string): string {
    if name in vars then vars[name] else ""
  }

  function DeriveKey(p: Primitives, vars: map<string, string>): Result<Key, Error> {
    var master, salt := Lookup(vars, ENV_MASTER), Lookup(vars, ENV_SALT);
    if master == "" || salt == "" then Err(MissingVariable) else
    match Decode(salt)
    case Err(_) => Err(BadSalt)
    case Ok(octets) => if |octets| < MINIMUM_SALT then Err(ShortSalt) else Ok(p.derive(master, octets))
  }

  function EncryptWith(p: Primitives, key: Key, nonce: Nonce, plaintext: string): Result<string, Error> {
    match p.toUtf8(plaintext)
    case None => Err(NotUtf8)
    case Some(octets) => Ok(Encode([VERSION] + nonce + p.seal(key, nonce, octets)))
  }

  function DecryptWith(p: Primitives, key: Key, ciphertext: string): Result<string, Error> {
    if ciphertext == "" then Ok("") else
    match Decode(ciphertext)
    case Err(_) => Err(NotBase64)
    case Ok(blob) =>
      if |blob| < 1 + NONCE_LENGTH + TAG_LENGTH then Err(TooShort)
      else if blob[0] != VERSION then Err(UnknownVersion)
      else match p.open(key, blob[1..13], blob[13..])
        case None => Err(InvalidTag)
        case Some(octets) =>
          match p.fromUtf8(octets)
          case None => Err(NotUtf8)
          case Some(text) => Ok(text)
  }

  /** What is wrong with the form of a text, before any key is used. */
  function Malformed(ciphertext: string): Option<Error> {
    match Decode(ciphertext)
    case Err(_) => Some(NotBase64)
    case Ok(blob) =>
      if |blob| < 1 + NONCE_LENGTH + TAG_LENGTH then Some(TooShort)
      else if blob[0] != VERSION then Some(UnknownVersion) else None
  }

  predicate IsEncrypted(value: Option<string>) {
    value.Some? &&
    match Decode(value.value)
    case Err(_) => false
    case Ok(blob) => |blob| >= 1 + NONCE_LENGTH + TAG_LENGTH && blob[0] == VERSION
  }

  // ---------------------------------------------------------------------------
  // The process: its environment, and vaults that remember their key
  // ---------------------------------------------------------------------------

  class Environment {
    var vars: map<string, string>

    constructor (vars: map<string, string>)
      ensures this.vars == vars
    {
      this.vars := vars;
    }
  }

  function Wrapped(r: Result<string, Error>): Result<Option<string>, Error> {
    match r
    case Ok(text) => Ok(Some(text))
    case Err(e) => Err(e)
  }

  /** A key is derived only for a text of the right form. */
  predicate NeedsKey(ciphertext: Option<string>) {
    ciphertext.Some? && ciphertext.value != "" && Malformed(ciphertext.value).None?
  }

  class Vault {
    var key: Option<Key>

    constructor ()
      ensures key == None
    {
      key := None;
    }

    /** The key this vault will use: the remembered one, else the one the environment gives now. */
    function CurrentKey(p: Primitives, env: Environment): Result<Key, Error>
      reads this, env
    {
      if key.Some? then Ok(key.value) else DeriveKey(p, env.vars)
    }

    method UseKey(p: Primitives, env: Environment) returns (r: Result<Key, Error>)
      modifies this`key
      ensures r == old(CurrentKey(p, env))
      ensures key == if r.Ok? then Some(r.value) else old(key)
    {
      if key.None? {
        var derived := DeriveKey(p, env.vars);
        if derived.Err? {
          return derived;
        }
        key := Some(derived.value);
      }
      return Ok(key.value);
    }

    method Encrypt(p: Primitives, env: Environment, plaintext: Option<string>, nonce: Nonce)
      returns (r: Result<Option<string>, Error>)
      modifies this`key
      ensures plaintext.None? ==> r == Ok(None) && key == old(key)
      ensures plaintext.Some? ==>
        match old(CurrentKey(p, env))
        case Err(e) => r == Err(e) && key == old(key)
        case Ok(k) => key == Some(k) && r == Wrapped(EncryptWith(p, k, nonce, plaintext.value))
    {
      if plaintext.None? {
        return Ok(None);
      }
      var k := UseKey(p, env);
      if k.Err? {
        return Err(k.error);
      }
      var octets := p.toUtf8(plaintext.value);
      if octets.None? {
        return Err(NotUtf8);
      }
      var sealed := p.seal(k.value, nonce, octets.value);
      var blob := [VERSION] + nonce + sealed;
      return Ok(Some(Encode(blob)));
    }

    method Decrypt(p: Primitives, env: Environment, ciphertext: Option<string>)
      returns (r: Result<Option<string>, Error>)
      modifies this`key
      ensures ciphertext.None? ==> r == Ok(None) && key == old(key)
      ensures ciphertext.Some? ==>
        match old(CurrentKey(p, env))
        case Ok(k) => r == Wrapped(DecryptWith(p, k, ciphertext.value))
        case Err(e) =>
          r == if ciphertext.value == "" then Ok(Some(""))
               else if Malformed(ciphertext.value).Some? then Err(Malformed(ciphertext.value).value) else Err(e)
      ensures key == if NeedsKey(ciphertext) && old(CurrentKey(p, env)).Ok?
                     then Some(old(CurrentKey(p, env)).value) else old(key)
    {
      if ciphertext.None? {
        return Ok(None);
      }
      if ciphertext.value == "" {
        return Ok(Some(""));
      }
      var decoded := Decode(ciphertext.value);
      if decoded.Err? {
        return Err(NotBase64);
      }
      var blob := decoded.value;
      if |blob| < 1 + NONCE_LENGTH + TAG_LENGTH {
        return Err(TooShort);
      }
      if blob[0] != VERSION {
        return Err(UnknownVersion);
      }
      var k := UseKey(p, env);
      if k.Err? {
        return Err(k.error);
      }
      var octets := p.open(k.value, blob[1..13], blob[13..]);
      if octets.None? {
        return Err(InvalidTag);
      }
      var text := p.fromUtf8(octets.value);
      if text.None? {
        return Err(NotUtf8);
      }
      return Ok(Some(text.value));
    }
  }

  /** A vault for the given key material. The environment is as before, also when this fails. */
  method VaultWith(p: Primitives, env: Environment, master: string, salt: string) returns (r: Result<Vault, Error>)
    modifies env
    ensures env.vars == old(env.vars)
    ensures match DeriveKey(p, map[ENV_MASTER := master, ENV_SALT := salt])
      case Err(e) => r == Err(e)
      case Ok(k) => r.Ok? && fresh(r.value) && r.value.key == Some(k)
  {
    var previous := env.vars;
    var hadMaster, hadSalt := ENV_MASTER in env.vars, ENV_SALT in env.vars;
    env.vars := env.vars[ENV_MASTER := master][ENV_SALT := salt];
    var v := new Vault();
    var k := v.UseKey(p, env);
    assert ENV_MASTER != ENV_SALT by {
      assert ENV_MASTER[11] != ENV_SALT[11];
    }
    env.vars := if hadMaster then env.vars[ENV_MASTER := previous[ENV_MASTER]] else env.vars - {ENV_MASTER};
    env.vars := if hadSalt then env.vars[ENV_SALT := previous[ENV_SALT]] else env.vars - {ENV_SALT};
    if k.Err? {
      return Err(k.error);
    }
    return Ok(v);
  }

  // ---------------------------------------------------------------------------
  // What is stored can be read back
  // ---------------------------------------------------------------------------

  lemma DecryptOfEncrypt(p: Primitives, key: Key, nonce: Nonce, plaintext: string)
    requires Sound(p) && EncryptWith(p, key, nonce, plaintext).Ok?
    ensures var text := EncryptWith(p, key, nonce, plaintext).value;
      && DecryptWith(p, key, text) == Ok(plaintext)
      && DecryptWith(p, key, StripPadding(text)) == Ok(plaintext)
      && text != "" && StripPadding(text) != ""
      && IsEncrypted(Some(text))
  {
    var octets := p.toUtf8(plaintext).value;
    var sealed := p.seal(key, nonce, octets);
    var blob := [VERSION] + nonce + sealed;
    DecodeOfEncode(blob);
    StripOfEncode(blob);
    assert blob[1..13] == nonce && blob[13..] == sealed;
  }

  /** The structural check never turns away text that decrypts, under any key. */
  lemma AcceptedIsEncrypted(p: Primitives, key: Key, ciphertext: string)
    requires ciphertext != "" && DecryptWith(p, key, ciphertext).Ok?
    ensures IsEncrypted(Some(ciphertext))
  {
  }

  lemma WrongKeyFails(p: Primitives, other: Key, key: Key, nonce: Nonce, plaintext: string)
    requires Sound(p) && Separates(p, other, key) && EncryptWith(p, key, nonce, plaintext).Ok?
    ensures DecryptWith(p, other, EncryptWith(p, key, nonce, plaintext).value) == Err(InvalidTag)
  {
    var octets := p.toUtf8(plaintext).value;
    var sealed := p.seal(key, nonce, octets);
    var blob := [VERSION] + nonce + sealed;
    DecodeOfEncode(blob);
    StripOfEncode(blob);
    assert blob[1..13] == nonce && blob[13..] == sealed;
  }

  // ---------------------------------------------------------------------------
  // A vault as its two operations, which is all that the maintenance scripts use of it
  // ---------------------------------------------------------------------------

  datatype Cipher = Cipher(
    encrypt: (Nonce, string) -> Result<string, Error>,
    decrypt: string -> Result<string, Error>)

  function CipherOf(p: Primitives, key: Key): Cipher {
    Cipher((nonce: Nonce, plaintext: string) => EncryptWith(p, key, nonce, plaintext),
           (ciphertext: string) => DecryptWith(p, key, ciphertext))
  }

  /** Whatever is encrypted is not empty and decrypts to what it was. */
  ghost predicate RoundTrips(c: Cipher) {
    forall n: Nonce, s: string :: c.encrypt(n, s).Ok? ==>
      var text := c.encrypt(n, s).value;
      text != "" && c.decrypt(text) == Ok(s)
  }

  ghost predicate Rejects(other: Cipher, c: Cipher) {
    forall n: Nonce, s: string :: c.encrypt(n, s).Ok? ==> other.decrypt(c.encrypt(n, s).value).Err?
  }

  lemma CiphersObeyLaws(p: Primitives, other: Key, key: Key)
    requires Sound(p)
    ensures RoundTrips(CipherOf(p, key))
    ensures Separates(p, other, key) ==> Rejects(CipherOf(p, other), CipherOf(p, key))
  {
    var c := CipherOf(p, key);
    forall n: Nonce, s: string | c.encrypt(n, s).Ok?
      ensures var text := c.encrypt(n, s).value;
        text != "" && c.decrypt(text) == Ok(s)
    {
      DecryptOfEncrypt(p, key, n, s);
    }
    if Separates(p, other, key) {
      forall n: Nonce, s: string | c.encrypt(n, s).Ok?
        ensures CipherOf(p, other).decrypt(c.encrypt(n, s).value).Err?
      {
        WrongKeyFails(p, other, key, n, s);
      }
    }
  }

  // ---------------------------------------------------------------------------
  // The trusted laws can hold together
  // ---------------------------------------------------------------------------

  function Latin(s: string): Option<Bytes> {
    if forall i :: 0 <= i < |s| ==> s[i] as int < 256
    then Some(seq(|s|, i requires 0 <= i < |s| => if s[i] as int < 256 then s[i] as int else 0))
    else None
  }

  function FromLatin(b: Bytes): Option<string> {
    Some(seq(|b|, i requires 0 <= i < |b| => b[i] as char))
  }

  const FIRST_TAG: Bytes := [0, 0, 0, 0, 0, 0, 0, 0, 0, 0, 0, 0, 0, 0, 0, 0]
  const SECOND_TAG: Bytes := [1, 0, 0, 0, 0, 0, 0, 0, 0, 0, 0, 0, 0, 0, 0, 0]

  function ToyTag(special: Key, key: Key): (tag: Bytes)
    ensures |tag| == TAG_LENGTH
  {
    if key == special then FIRST_TAG else SECOND_TAG
  }

  function ToyPrimitives(special: Key): Primitives {
    Primitives(
      (k: Key, n: Nonce, m: Bytes) => m + ToyTag(special, k),
      (k: Key, n: Nonce, c: Bytes) =>
        if |c| >= TAG_LENGTH && c[|c| - TAG_LENGTH..] == ToyTag(special, k) then Some(c[..|c| - TAG_LENGTH]) else None,
      (master: string, salt: Bytes) => salt,
      Latin,
      FromLatin)
  }

  /** So no statement that assumes both laws for two different keys is empty. */
  lemma LawsConsistent(oldKey: Key, newKey: Key)
    requires oldKey != newKey
    ensures Sound(ToyPrimitives(oldKey)) && Separates(ToyPrimitives(oldKey), oldKey, newKey)
  {
    var p := ToyPrimitives(oldKey);
    forall k: Key, n: Nonce, m: Bytes
      ensures |p.seal(k, n, m)| == |m| + TAG_LENGTH && p.open(k, n, p.seal(k, n, m)) == Some(m)
    {
      var c := p.seal(k, n, m);
      assert c == m + ToyTag(oldKey, k);
      assert c[|c| - TAG_LENGTH..] == ToyTag(oldKey, k) && c[..|c| - TAG_LENGTH] == m;
    }
    forall s: string | p.toUtf8(s).Some? ensures p.fromUtf8(p.toUtf8(s).value) == Some(s) {
      assert p.fromUtf8(p.toUtf8(s).value).value == s;
    }
    forall n: Nonce, m: Bytes ensures p.open(oldKey, n, p.seal(newKey, n, m)) == None {
      var c := p.seal(newKey, n, m);
      assert c == m + SECOND_TAG;
      assert c[|c| - TAG_LENGTH..] == SECOND_TAG;
      assert SECOND_TAG[0] != FIRST_TAG[0];
    }
  }
}
