/** Normalising a MAC address: any separators and case in, `aa:bb:cc:dd:ee:ff` out. */
module MacAddress {
  import opened Wrappers

  predicate IsHex(c: char) {
    '0' <= c <= '9' || 'a' <= c <= 'f' || 'A' <= c <= 'F'
  }

  predicate IsLowerHex(c: char) {
    '0' <= c <= '9' || 'a' <= c <= 'f'
  }

  function Lower(c: char): char {
    if 'A' <= c <= 'Z' then c - 'A' + 'a' else c
  }

  function LowerAll(s: string): string {
    seq(|s|, i requires 0 <= i < |s| => Lower(s[i]))
  }

  function HexDigits(raw: string): (hex: string)
    ensures forall i :: 0 <= i < |hex| ==> IsHex(hex[i])
  {
    if raw == "" then ""
    else if IsHex(raw[0]) then [raw[0]] + HexDigits(raw[1..])
    else HexDigits(raw[1..])
  }

  /** Lower-case pairs joined by colons. */
  function Pairs(hex: string): string {
    if |hex| <= 2 then LowerAll(hex)
    else [Lower(hex[0]), Lower(hex[1]), ':'] + Pairs(hex[2..])
  }

  function Normalise(raw: string): Option<string> {
    var hex := HexDigits(raw);
    if |hex| == 12 then Some(Pairs(hex)) else None
  }

  /** Pairs of lower-case digits with a colon between them. */
  predicate Paired(s: string) {
    |s| % 3 == 2 && forall i :: 0 <= i < |s| ==> if i % 3 == 2 then s[i] == ':' else IsLowerHex(s[i])
  }

  lemma {:induction false} PairsShape(hex: string)
    requires |hex| >= 2 && |hex| % 2 == 0 && forall i :: 0 <= i < |hex| ==> IsHex(hex[i])
    ensures Paired(Pairs(hex)) && |Pairs(hex)| == |hex| / 2 * 3 - 1
    decreases |hex|
  {
    if |hex| > 2 {
      PairsShape(hex[2..]);
      var rest := Pairs(hex[2..]);
      forall i | 0 <= i < |Pairs(hex)| ensures if i % 3 == 2 then Pairs(hex)[i] == ':' else IsLowerHex(Pairs(hex)[i]) {
        assert i >= 3 ==> Pairs(hex)[i] == rest[i - 3];
      }
    }
  }

  lemma ReadOne(c: char, s: string)
    ensures HexDigits([c] + s) == if IsHex(c) then [c] + HexDigits(s) else HexDigits(s)
  {
    assert ([c] + s)[1..] == s;
  }

  lemma ReadPair(a: char, b: char, rest: string)
    requires IsHex(a) && IsHex(b)
    ensures HexDigits([a, b] + rest) == [a, b] + HexDigits(rest)
  {
    ReadOne(a, [b] + rest);
    ReadOne(b, rest);
    assert [a, b] + rest == [a] + ([b] + rest);
  }

  lemma {:induction false} DigitsOfPairs(hex: string)
    requires |hex| % 2 == 0 && forall i :: 0 <= i < |hex| ==> IsHex(hex[i])
    ensures HexDigits(Pairs(hex)) == LowerAll(hex)
    decreases |hex|
  {
    if |hex| >= 2 {
      var a, b, tail := Lower(hex[0]), Lower(hex[1]), Pairs(hex[2..]);
      DigitsOfPairs(hex[2..]);
      ReadOne(':', tail);
      ReadPair(a, b, if |hex| == 2 then "" else [':'] + tail);
      assert Pairs(hex) == [a, b] + if |hex| == 2 then "" else [':'] + tail;
      assert LowerAll(hex) == [a, b] + LowerAll(hex[2..]);
    }
  }

  lemma PairsArePaired(hex: string)
    requires |hex| >= 2 && |hex| % 2 == 0 && forall i :: 0 <= i < |hex| ==> IsHex(hex[i])
    ensures Paired(Pairs(hex)) && |Pairs(hex)| == |hex| / 2 * 3 - 1
    ensures HexDigits(Pairs(hex)) == LowerAll(hex)
  {
    PairsShape(hex);
    DigitsOfPairs(hex);
  }

  lemma {:induction false} PairsOfPaired(s: string)
    requires Paired(s)
    ensures |HexDigits(s)| == (|s| + 1) / 3 * 2 && Pairs(HexDigits(s)) == s
    decreases |s|
  {
    var hex := HexDigits(s[2..]);
    assert s[0..] == s && s[1..][1..] == s[2..];
    assert HexDigits(s) == [s[0], s[1]] + hex by {
      assert HexDigits(s[1..]) == [s[1]] + hex;
    }
    if |s| == 2 {
      assert hex == "";
      assert LowerAll(HexDigits(s)) == s;
    } else {
      var rest := s[3..];
      forall i | 0 <= i < |rest| ensures if i % 3 == 2 then rest[i] == ':' else IsLowerHex(rest[i]) {
        assert rest[i] == s[i + 3];
      }
      PairsOfPaired(rest);
      assert s[2..][1..] == rest && s[2] == ':';
      assert HexDigits(s)[2..] == hex;
      assert s == [s[0], s[1], ':'] + rest;
    }
  }

  /** The normal forms are exactly the fixed points: seventeen characters, paired. */
  lemma NormalFormExactly(s: string)
    ensures Normalise(s) == Some(s) <==> |s| == 17 && Paired(s)
  {
    if Normalise(s).Some? {
      PairsArePaired(HexDigits(s));
    }
    if |s| == 17 && Paired(s) {
      PairsOfPaired(s);
    }
  }

  lemma NormaliseIdempotent(raw: string)
    requires Normalise(raw).Some?
    ensures Normalise(Normalise(raw).value) == Normalise(raw)
  {
    PairsArePaired(HexDigits(raw));
    NormalFormExactly(Normalise(raw).value);
  }

  /** Two spellings name the same address if and only if their digits agree up to case. */
  lemma NormaliseIdentifies(raw: string, other: string)
    requires Normalise(raw).Some? && Normalise(other).Some?
    ensures Normalise(raw) == Normalise(other) <==> LowerAll(HexDigits(raw)) == LowerAll(HexDigits(other))
  {
    PairsArePaired(HexDigits(raw));
    PairsArePaired(HexDigits(other));
    PairsOfLower(HexDigits(raw));
    PairsOfLower(HexDigits(other));
  }

  lemma {:induction false} PairsOfLower(hex: string)
    ensures Pairs(LowerAll(hex)) == Pairs(hex)
    decreases |hex|
  {
    if |hex| > 2 {
      PairsOfLower(hex[2..]);
      assert LowerAll(hex)[2..] == LowerAll(hex[2..]);
    } else {
      assert LowerAll(LowerAll(hex)) == LowerAll(hex);
    }
  }
}
