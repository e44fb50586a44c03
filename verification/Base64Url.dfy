/**
 The urlsafe base64 of section 5 of RFC 4648, written with padding, and read the lenient way
 Python reads it: both alphabets are accepted, characters outside them are dropped, padding
 ends the input only where it completes a group, and only a dangling group is an error.
 */
module Base64Url {
  import opened Wrappers
  import opened Bytes

  const PAD: char := '='

  type SixBits = n: int | 0 <= n < 64

  function Letter(n: SixBits): char {
    if n < 26 then (n + 65) as char
    else if n < 52 then (n + 71) as char
    else if n < 62 then (n - 4) as char
    else if n == 62 then '-'
    else '_'
  }

  /** None for every character that the reader drops. */
  function ValueOf(c: char): Option<SixBits> {
    var code := c as int;
    if 65 <= code <= 90 then Some(code - 65)
    else if 97 <= code <= 122 then Some(code - 71)
    else if 48 <= code <= 57 then Some(code + 4)
    else if c == '-' || c == '+' then Some(62)
    else if c == '_' || c == '/' then Some(63)
    else None
  }

  lemma ValueOfLetter(n: SixBits)
    ensures ValueOf(Letter(n)) == Some(n) && Letter(n) != PAD && Letter(n) as int < 128
  {
  }

  function Encode(b: Bytes): string {
    if |b| == 0 then ""
    else if |b| == 1 then [Letter(b[0] / 4), Letter(b[0] % 4 * 16), PAD, PAD]
    else if |b| == 2 then [Letter(b[0] / 4), Letter(b[0] % 4 * 16 + b[1] / 16), Letter(b[1] % 16 * 4), PAD]
    else [Letter(b[0] / 4), Letter(b[0] % 4 * 16 + b[1] / 16), Letter(b[1] % 16 * 4 + b[2] / 64), Letter(b[2] % 64)]
         + Encode(b[3..])
  }

  function Prepend(b: Byte, r: Result<Bytes, ()>): Result<Bytes, ()> {
    match r
    case Ok(rest) => Ok([b] + rest)
    case Err(e) => Err(e)
  }

  /** `position` in the group of four, the bits `left` over from the last character, and pads seen. */
  function Read(s: string, position: nat, left: int, pads: nat): Result<Bytes, ()>
    requires position < 4 && 0 <= left
    requires (position == 1 ==> left < 64) && (position == 2 ==> left < 16) && (position == 3 ==> left < 4)
    decreases |s|
  {
    if s == "" then
      if position == 0 then Ok([]) else Err(())
    else if s[0] == PAD then
      if position < 2 then Read(s[1..], position, left, pads)
      else if position + pads + 1 >= 4 then Ok([])
      else Read(s[1..], position, left, pads + 1)
    else
      match ValueOf(s[0])
      case None => Read(s[1..], position, left, pads)
      case Some(v) =>
        if position == 0 then Read(s[1..], 1, v, 0)
        else if position == 1 then Prepend(left * 4 + v / 16, Read(s[1..], 2, v % 16, 0))
        else if position == 2 then Prepend(left * 16 + v / 4, Read(s[1..], 3, v % 4, 0))
        else Prepend(left * 64 + v, Read(s[1..], 0, 0, 0))
  }

  function Padding(length: nat): (p: string)
    ensures |p| == length && forall i :: 0 <= i < length ==> p[i] == PAD
  {
    seq(length, _ => PAD)
  }

  /** Python's `-length % 4`. */
  function PadsMissing(length: nat): nat {
    if length % 4 == 0 then 0 else 4 - length % 4
  }

  predicate Ascii(s: string) {
    forall i :: 0 <= i < |s| ==> s[i] as int < 128
  }

  /** Missing padding is added first; text outside ASCII is refused. */
  function Decode(s: string): Result<Bytes, ()> {
    if Ascii(s) then Read(s + Padding(PadsMissing(|s|)), 0, 0, 0) else Err(())
  }

  function StripPadding(s: string): string {
    if s != "" && s[|s| - 1] == PAD then StripPadding(s[..|s| - 1]) else s
  }

  // ---------------------------------------------------------------------------
  // Reading undoes writing
  // ---------------------------------------------------------------------------

  /** One letter, at each position of its group. */
  lemma ReadLetter(v: SixBits, rest: string, position: nat, left: int, pads: nat)
    requires position < 4 && 0 <= left
    requires (position == 1 ==> left < 64) && (position == 2 ==> left < 16) && (position == 3 ==> left < 4)
    ensures Read([Letter(v)] + rest, position, left, pads) ==
      if position == 0 then Read(rest, 1, v, 0)
      else if position == 1 then Prepend(left * 4 + v / 16, Read(rest, 2, v % 16, 0))
      else if position == 2 then Prepend(left * 16 + v / 4, Read(rest, 3, v % 4, 0))
      else Prepend(left * 64 + v, Read(rest, 0, 0, 0))
  {
    ValueOfLetter(v);
    assert ([Letter(v)] + rest)[1..] == rest;
  }

  /** The first two letters of a group carry its first octet, and so on. */
  lemma ReadPair(b0: Byte, low: nat, rest: string)
    requires low < 16
    ensures Read([Letter(b0 / 4), Letter(b0 % 4 * 16 + low)] + rest, 0, 0, 0) == Prepend(b0, Read(rest, 2, low, 0))
  {
    var v0: SixBits, v1: SixBits := b0 / 4, b0 % 4 * 16 + low;
    assert [Letter(v0), Letter(v1)] + rest == [Letter(v0)] + ([Letter(v1)] + rest);
    ReadLetter(v0, [Letter(v1)] + rest, 0, 0, 0);
    ReadLetter(v1, rest, 1, v0, 0);
    assert v0 * 4 + v1 / 16 == b0 && v1 % 16 == low;
  }

  lemma ReadThird(b1: Byte, low: nat, rest: string)
    requires low < 4
    ensures Read([Letter(b1 % 16 * 4 + low)] + rest, 2, b1 / 16, 0) == Prepend(b1, Read(rest, 3, low, 0))
  {
    var v2: SixBits := b1 % 16 * 4 + low;
    ReadLetter(v2, rest, 2, b1 / 16, 0);
    assert b1 / 16 * 16 + v2 / 4 == b1 && v2 % 4 == low;
  }

  lemma ReadFourth(b2: Byte, rest: string)
    ensures Read([Letter(b2 % 64)] + rest, 3, b2 / 64, 0) == Prepend(b2, Read(rest, 0, 0, 0))
  {
    ReadLetter(b2 % 64, rest, 3, b2 / 64, 0);
  }

  /** Four letters are read as three octets, whatever follows. */
  lemma ReadGroup(b0: Byte, b1: Byte, b2: Byte, rest: string)
    ensures var group := [Letter(b0 / 4), Letter(b0 % 4 * 16 + b1 / 16), Letter(b1 % 16 * 4 + b2 / 64), Letter(b2 % 64)];
      Read(group + rest, 0, 0, 0) == Prepend(b0, Prepend(b1, Prepend(b2, Read(rest, 0, 0, 0))))
  {
    var first := [Letter(b0 / 4), Letter(b0 % 4 * 16 + b1 / 16)];
    var third, fourth := [Letter(b1 % 16 * 4 + b2 / 64)], [Letter(b2 % 64)];
    var group := [Letter(b0 / 4), Letter(b0 % 4 * 16 + b1 / 16), Letter(b1 % 16 * 4 + b2 / 64), Letter(b2 % 64)];
    assert group + rest == first + (third + (fourth + rest));
    ReadPair(b0, b1 / 16, third + (fourth + rest));
    ReadThird(b1, b2 / 64, fourth + rest);
    ReadFourth(b2, rest);
  }

  lemma ReadPads()
    ensures Read([PAD, PAD], 2, 0, 0) == Ok([])
    ensures Read([PAD], 3, 0, 0) == Ok([])
  {
    assert [PAD, PAD][1..] == [PAD];
    assert Read([PAD], 2, 0, 1) == Ok([]);
  }

  lemma ReadOfOne(b0: Byte)
    ensures Read(Encode([b0]), 0, 0, 0) == Ok([b0])
  {
    ReadPads();
    ReadPair(b0, 0, [PAD, PAD]);
    assert Encode([b0]) == [Letter(b0 / 4), Letter(b0 % 4 * 16 + 0)] + [PAD, PAD];
    assert [b0] + [] == [b0];
  }

  lemma ReadOfTwo(b0: Byte, b1: Byte)
    ensures Read(Encode([b0, b1]), 0, 0, 0) == Ok([b0, b1])
  {
    var first, third := [Letter(b0 / 4), Letter(b0 % 4 * 16 + b1 / 16)], [Letter(b1 % 16 * 4 + 0)];
    ReadPads();
    ReadPair(b0, b1 / 16, third + [PAD]);
    ReadThird(b1, 0, [PAD]);
    assert Encode([b0, b1]) == first + (third + [PAD]);
    assert [b0] + ([b1] + []) == [b0, b1];
  }

  lemma {:induction false} ReadOfEncode(b: Bytes)
    ensures Read(Encode(b), 0, 0, 0) == Ok(b)
    decreases |b|
  {
    if |b| == 1 {
      ReadOfOne(b[0]);
      assert b == [b[0]];
    } else if |b| == 2 {
      ReadOfTwo(b[0], b[1]);
      assert b == [b[0], b[1]];
    } else if |b| > 2 {
      var rest := b[3..];
      ReadOfEncode(rest);
      ReadGroup(b[0], b[1], b[2], Encode(rest));
      assert [b[0]] + ([b[1]] + ([b[2]] + rest)) == b;
    }
  }

  lemma AsciiAppend(front: string, rest: string)
    requires Ascii(front) && Ascii(rest)
    ensures Ascii(front + rest)
  {
  }

  lemma {:induction false} EncodeShape(b: Bytes)
    ensures Ascii(Encode(b)) && |Encode(b)| % 4 == 0
    decreases |b|
  {
    if |b| > 2 {
      EncodeShape(b[3..]);
      AsciiAppend(Encode(b)[..4], Encode(b[3..]));
    }
  }

  lemma {:induction false} StripTail(head: string, tail: string)
    requires head != "" && head[|head| - 1] != PAD
    ensures StripPadding(head + tail) == head + StripPadding(tail)
    decreases |tail|
  {
    if tail == "" {
      assert head + tail == head;
    } else if tail[|tail| - 1] == PAD {
      assert (head + tail)[..|head + tail| - 1] == head + tail[..|tail| - 1];
      StripTail(head, tail[..|tail| - 1]);
    }
  }

  lemma StripShort(head: string, pads: nat)
    requires head != "" && head[|head| - 1] != PAD && 0 < pads < 3
    ensures StripPadding(head + Padding(pads)) == head
  {
    StripTail(head, Padding(pads));
    assert Padding(pads)[..pads - 1] == Padding(pads - 1);
    assert pads == 2 ==> Padding(1)[..0] == "";
    assert StripPadding(Padding(pads)) == "";
  }

  /** Stripping the padding loses only what the reader puts back. */
  lemma {:induction false} StripOfEncode(b: Bytes)
    ensures var bare := StripPadding(Encode(b));
      bare + Padding(PadsMissing(|bare|)) == Encode(b)
    ensures b != [] ==> StripPadding(Encode(b)) != ""
    decreases |b|
  {
    if |b| == 1 {
      assert Encode(b) == Encode(b)[..2] + Padding(2);
      StripShort(Encode(b)[..2], 2);
    } else if |b| == 2 {
      assert Encode(b) == Encode(b)[..3] + Padding(1);
      StripShort(Encode(b)[..3], 1);
    } else if |b| > 2 {
      StripOfEncode(b[3..]);
      var group, rest := Encode(b)[..4], Encode(b[3..]);
      assert Encode(b) == group + rest;
      StripGroup(group, rest);
    }
  }

  lemma StripGroup(group: string, rest: string)
    requires |group| == 4 && group[3] != PAD
    requires StripPadding(rest) + Padding(PadsMissing(|StripPadding(rest)|)) == rest
    ensures var bare := StripPadding(group + rest);
      bare + Padding(PadsMissing(|bare|)) == group + rest
    ensures StripPadding(group + rest) != ""
  {
    var bare := StripPadding(rest);
    StripTail(group, rest);
    assert PadsMissing(|group + bare|) == PadsMissing(|bare|);
    assert group + bare + Padding(PadsMissing(|bare|)) == group + (bare + Padding(PadsMissing(|bare|)));
  }

  /** With the padding or without it, what was written is read back. */
  lemma DecodeOfEncode(b: Bytes)
    ensures Decode(Encode(b)) == Ok(b)
    ensures Decode(StripPadding(Encode(b))) == Ok(b)
  {
    ReadOfEncode(b);
    EncodeShape(b);
    var text, bare := Encode(b), StripPadding(Encode(b));
    assert Decode(text) == Ok(b) by {
      assert Padding(PadsMissing(|text|)) == "" && text + "" == text;
      DecodeCompleted(text, "");
    }
    assert Decode(bare) == Ok(b) by {
      StripOfEncode(b);
      DecodeCompleted(bare, Padding(PadsMissing(|bare|)));
    }
  }

  /** Text that the missing padding completes to what `Encode` writes decodes as that does. */
  lemma DecodeCompleted(bare: string, padding: string)
    requires padding == Padding(PadsMissing(|bare|)) && Ascii(bare + padding)
    ensures Decode(bare) == Read(bare + padding, 0, 0, 0)
  {
    assert bare == (bare + padding)[..|bare|];
  }
}
