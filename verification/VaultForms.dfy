/**
 The stored form of a secret, octet by octet: the alphabet and the bit order of section 5 of
 RFC 4648, the layout inside, and what turns key material into a key.
 */
module VaultForms {
  import opened Wrappers
  import opened Bytes
  import opened Base64Url
  import opened Vault

  // ---------------------------------------------------------------------------
  // The text
  // ---------------------------------------------------------------------------

  /** The letters in order: A to Z, a to z, 0 to 9, minus and underline. */
  lemma AlphabetExactly(n: SixBits)
    ensures n < 26 ==> Letter(n) as int == 'A' as int + n
    ensures 26 <= n < 52 ==> Letter(n) as int == 'a' as int + (n - 26)
    ensures 52 <= n < 62 ==> Letter(n) as int == '0' as int + (n - 52)
    ensures n == 62 ==> Letter(n) == '-'
    ensures n == 63 ==> Letter(n) == '_'
  {
  }

  /** A character that is in neither alphabet and is no padding. */
  predicate Foreign(c: char) {
    !('A' <= c <= 'Z' || 'a' <= c <= 'z' || '0' <= c <= '9') && c != '-' && c != '_' && c != '+' && c != '/' && c != '='
  }

  /** Each letter reads as its number, the two signs of the standard alphabet likewise, and nothing else as any. */
  lemma ReadsExactly(c: char, n: SixBits)
    ensures ValueOf(c) == Some(n) <==> c == Letter(n) || (c == '+' && n == 62) || (c == '/' && n == 63)
    ensures ValueOf(c) == None <==> Foreign(c) || c == '='
  {
  }

  /** Three octets are four letters of the same 24 bits, highest first; one or two octets are padded. */
  lemma GroupBits(b: Bytes)
    requires b != []
    ensures var text := Encode(b);
            && |text| >= 4 && ValueOf(text[0]).Some? && ValueOf(text[1]).Some?
            && var v0, v1 := ValueOf(text[0]).value, ValueOf(text[1]).value;
               && (|b| == 1 ==> text[2..] == "==" && 64 * v0 + v1 == 16 * b[0] as int)
               && (|b| >= 2 ==> ValueOf(text[2]).Some?)
               && (|b| == 2 ==> text[3..] == "=" && 4096 * v0 + 64 * v1 + ValueOf(text[2]).value == 4 * (256 * b[0] as int + b[1] as int))
               && (|b| >= 3 ==>
                     && ValueOf(text[3]).Some? && text[4..] == Encode(b[3..])
                     && 262144 * v0 + 4096 * v1 + 64 * ValueOf(text[2]).value + ValueOf(text[3]).value
                        == 65536 * b[0] as int + 256 * b[1] as int + b[2] as int)
  {
    ValueOfLetter(b[0] / 4);
    if |b| == 1 {
      ValueOfLetter(b[0] % 4 * 16);
    } else {
      ValueOfLetter(b[0] % 4 * 16 + b[1] / 16);
      if |b| == 2 {
        ValueOfLetter(b[1] % 16 * 4);
      } else {
        ValueOfLetter(b[1] % 16 * 4 + b[2] / 64);
        ValueOfLetter(b[2] % 64);
      }
    }
  }

  /** The test vectors of section 10 of RFC 4648: "f", "fo", "foo". */
  lemma Vectors()
    ensures Encode([]) == "" && Encode([102]) == "Zg==" && Encode([102, 111]) == "Zm8=" && Encode([102, 111, 111]) == "Zm9v"
  {
    assert Encode([102, 111, 111]) == "Zm9v" + Encode([102, 111, 111][3..]);
  }

  /** What is read after a first character that does not end the input: the rest, from another place in the group. */
  lemma ReadsAlike(s: string, t: string, position: nat, left: int, pads: nat)
    requires position < 4 && 0 <= left
    requires (position == 1 ==> left < 64) && (position == 2 ==> left < 16) && (position == 3 ==> left < 4)
    requires s != "" && t != "" && s[0] == t[0]
    requires forall q: nat, l: nat, m: nat :: InPlace(q, l) ==> Read(s[1..], q, l, m) == Read(t[1..], q, l, m)
    ensures Read(s, position, left, pads) == Read(t, position, left, pads)
  {
    assert InPlace(position, left);
    if ValueOf(s[0]).Some? {
      var v := ValueOf(s[0]).value;
      assert InPlace(0, 0) && InPlace(1, v) && InPlace(2, v % 16) && InPlace(3, v % 4);
    }
  }

  predicate InPlace(position: nat, left: nat) {
    position < 4 && (position == 1 ==> left < 64) && (position == 2 ==> left < 16) && (position == 3 ==> left < 4)
  }

  /** A character of neither alphabet is dropped wherever it stands. */
  lemma {:induction false} ForeignIsDropped(front: string, c: char, rest: string, position: nat, left: nat, pads: nat)
    requires Foreign(c) && InPlace(position, left)
    ensures Read(front + [c] + rest, position, left, pads) == Read(front + rest, position, left, pads)
    decreases |front|
  {
    var s, t := front + [c] + rest, front + rest;
    if front == "" {
      ReadsExactly(c, 0);
      assert s[1..] == rest && t == rest;
    } else {
      var next := front[1..];
      assert s[1..] == next + [c] + rest && t[1..] == next + rest;
      forall q: nat, l: nat, m: nat | InPlace(q, l) ensures Read(s[1..], q, l, m) == Read(t[1..], q, l, m) {
        ForeignIsDropped(next, c, rest, q, l, m);
      }
      ReadsAlike(s, t, position, left, pads);
    }
  }

  lemma {:induction false} ReadAfterGroups(b: Bytes, tail: string)
    requires |b| % 3 == 0 && Read(tail, 0, 0, 0).Err?
    ensures Read(Encode(b) + tail, 0, 0, 0).Err?
    decreases |b|
  {
    if b == [] {
      assert "" + tail == tail;
    } else {
      var rest := Encode(b[3..]) + tail;
      ReadAfterGroups(b[3..], tail);
      ReadGroup(b[0], b[1], b[2], rest);
      assert Encode(b) + tail == Encode(b)[..4] + rest;
    }
  }

  /** A single letter after whole groups is no octet, and the text is refused. */
  lemma DanglingLetterIsRefused(b: Bytes, n: SixBits)
    requires |b| % 3 == 0
    ensures Decode(Encode(b) + [Letter(n)]).Err?
  {
    var groups, lone, pads := Encode(b), [Letter(n)], Padding(3);
    EncodeShape(b);
    ValueOfLetter(n);
    assert Ascii(lone) && Ascii(pads);
    AsciiAppend(groups, lone);
    AsciiAppend(groups + lone, pads);
    LoneLetter(n, pads);
    ReadAfterGroups(b, lone + pads);
    DecodesCompleted(groups, lone, pads);
  }

  lemma DecodesCompleted(groups: string, lone: string, pads: string)
    requires |groups| % 4 == 0 && |lone| == 1 && pads == Padding(3) && Ascii(groups + lone + pads)
    ensures Decode(groups + lone) == Read(groups + (lone + pads), 0, 0, 0)
  {
    assert |groups + lone| % 4 == 1;
    DecodeCompleted(groups + lone, pads);
    assert groups + lone + pads == groups + (lone + pads);
  }

  lemma LoneLetter(n: SixBits, pads: string)
    requires pads == Padding(3)
    ensures Read([Letter(n)] + pads, 0, 0, 0).Err?
  {
    ReadLetter(n, pads, 0, 0, 0);
    PadsAlone(n, pads);
  }

  lemma {:induction false} PadsAlone(left: nat, pads: string)
    requires left < 64 && forall i :: 0 <= i < |pads| ==> pads[i] == PAD
    ensures Read(pads, 1, left, 0).Err?
  {
    if pads != "" {
      PadsAlone(left, pads[1..]);
    }
  }

  // ---------------------------------------------------------------------------
  // The octets
  // ---------------------------------------------------------------------------

  /** Inside an encryption: the version 1, the nonce, and the plaintext sealed under key and nonce. */
  lemma Layout(p: Primitives, key: Key, nonce: Nonce, plaintext: string)
    ensures EncryptWith(p, key, nonce, plaintext).Ok? <==> p.toUtf8(plaintext).Some?
    ensures p.toUtf8(plaintext).Some? ==>
              Decode(EncryptWith(p, key, nonce, plaintext).value) == Ok([1] + nonce + p.seal(key, nonce, p.toUtf8(plaintext).value))
  {
    if p.toUtf8(plaintext).Some? {
      DecodeOfEncode([1] + nonce + p.seal(key, nonce, p.toUtf8(plaintext).value));
    }
  }

  /** Text counts as encrypted exactly when it holds at least 29 octets of which the first is 1. */
  lemma LooksEncryptedExactly(blob: Bytes)
    ensures IsEncrypted(Some(Encode(blob))) <==> |blob| >= 29 && blob[0] == 1
    ensures IsEncrypted(Some(StripPadding(Encode(blob)))) <==> |blob| >= 29 && blob[0] == 1
  {
    DecodeOfEncode(blob);
  }

  /** What decryption makes of any octets: length first, then version, then the tag, then UTF-8. */
  lemma DecryptsExactly(p: Primitives, key: Key, blob: Bytes)
    requires blob != []
    ensures var r := DecryptWith(p, key, Encode(blob));
            && (r == Err(TooShort) <==> |blob| < 29)
            && (r == Err(UnknownVersion) <==> |blob| >= 29 && blob[0] != 1)
            && (|blob| >= 29 && blob[0] == 1 ==>
                  var sealed := p.open(key, blob[1..13], blob[13..]);
                  && (r == Err(InvalidTag) <==> sealed.None?)
                  && (sealed.Some? ==> r == match p.fromUtf8(sealed.value) case Some(text) => Ok(text) case None => Err(NotUtf8)))
  {
    DecodeOfEncode(blob);
    GroupBits(blob);
  }

  // ---------------------------------------------------------------------------
  // The key
  // ---------------------------------------------------------------------------

  predicate Given(vars: map<string, string>, name: string) {
    name in vars && vars[name] != ""
  }

  /** A key comes from the master and the salt's octets, both given and the salt of at least eight octets, and from nothing else. */
  lemma DerivesExactly(p: Primitives, vars: map<string, string>, key: Key)
    ensures DeriveKey(p, vars) == Ok(key) <==>
            && Given(vars, "ORW_SECRET_MASTER") && Given(vars, "ORW_SECRET_KDF_SALT")
            && var octets := Decode(vars["ORW_SECRET_KDF_SALT"]);
               octets.Ok? && |octets.value| >= 8 && key == p.derive(vars["ORW_SECRET_MASTER"], octets.value)
    ensures DeriveKey(p, vars) == Err(MissingVariable) <==>
            !Given(vars, "ORW_SECRET_MASTER") || !Given(vars, "ORW_SECRET_KDF_SALT")
  {
  }
}
