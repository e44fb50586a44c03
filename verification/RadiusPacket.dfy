/**
 RADIUS packets for Change-of-Authorization and Disconnect: the attribute builders, the
 encoder of sections 3 and 5 of RFC 2865 with the request authenticator of section 2.3 of
 RFC 5176, and the tolerant decoder. MD5 is any function to 16 octets.
 */
module RadiusPacket {
  import opened Wrappers
  import opened Bytes

  const TUNNEL_TYPE := 64
  const TUNNEL_MEDIUM_TYPE := 65
  const TUNNEL_PRIVATE_GROUP_ID := 81
  const VENDOR_SPECIFIC := 26
  const ERROR_CAUSE := 101
  const CISCO_VENDOR_ID := 9
  const CISCO_AV_PAIR := 1
  const HEADER_LENGTH := 20
  const ZERO_AUTHENTICATOR: Bytes := [0, 0, 0, 0, 0, 0, 0, 0, 0, 0, 0, 0, 0, 0, 0, 0]

  type Digest = d: Bytes | |d| == 16 witness ZERO_AUTHENTICATOR

  type Md5 = Bytes -> Digest

  datatype Attribute = Attribute(kind: int, value: Bytes)

  datatype Error = StructError | PacketTooShort

  /** What a packet object holds. */
  datatype Content = Content(code: int, identifier: int, authenticator: Bytes, attributes: seq<Attribute>)

  // ---------------------------------------------------------------------------
  // The wire format
  // ---------------------------------------------------------------------------

  predicate AttributeFits(a: Attribute) {
    FitsByte(a.kind) && |a.value| <= 253
  }

  predicate AllFit(attributes: seq<Attribute>) {
    forall i :: 0 <= i < |attributes| ==> AttributeFits(attributes[i])
  }

  function EncodeAttribute(a: Attribute): (b: Bytes)
    requires AttributeFits(a)
    ensures |b| == |a.value| + 2
  {
    [a.kind, |a.value| + 2] + a.value
  }

  function Flatten(attributes: seq<Attribute>): Bytes
    requires AllFit(attributes)
  {
    if attributes == [] then [] else EncodeAttribute(attributes[0]) + Flatten(attributes[1..])
  }

  predicate PacketFits(code: int, identifier: int, attributes: seq<Attribute>) {
    && FitsByte(code) && FitsByte(identifier) && AllFit(attributes)
    && HEADER_LENGTH + |Flatten(attributes)| < 0x1_0000
  }

  function Header(code: int, identifier: int, length: int): (b: Bytes)
    requires FitsByte(code) && FitsByte(identifier) && 0 <= length < 0x1_0000
    ensures |b| == 4
  {
    [code, identifier] + U16(length)
  }

  function Encoded(code: int, identifier: int, attributes: seq<Attribute>, secret: Bytes, md5: Md5): Bytes
    requires PacketFits(code, identifier, attributes)
  {
    var body := Flatten(attributes);
    var header := Header(code, identifier, HEADER_LENGTH + |body|);
    header + md5(header + ZERO_AUTHENTICATOR + body + secret) + body
  }

  /** A type octet, a length octet of at least 2, and as many octets as it announces. */
  predicate StartsWithAttribute(data: Bytes) {
    2 <= |data| && 2 <= data[1] <= |data|
  }

  function ParseAttributes(data: Bytes): (attributes: seq<Attribute>)
    ensures AllFit(attributes)
    decreases |data|
  {
    if !StartsWithAttribute(data) then [] else
    [Attribute(data[0], data[2..data[1]])] + ParseAttributes(data[data[1]..])
  }

  function Decoded(data: Bytes): Result<Content, Error> {
    if |data| < HEADER_LENGTH then Err(PacketTooShort) else
    var length := Value(data[2..4]);
    Ok(Content(data[0], data[1], data[4..20], ParseAttributes(Slice(data, HEADER_LENGTH, length))))
  }

  // ---------------------------------------------------------------------------
  // The packet object
  // ---------------------------------------------------------------------------

  /** `str(n).encode("utf-8")`. */
  function Decimal(n: int): (b: Bytes)
    ensures |b| > 0
    decreases n < 0, if n < 0 then -n else n
  {
    if n < 0 then [45] + Decimal(-n)
    else if n < 10 then [48 + n]
    else Decimal(n / 10) + [48 + n % 10]
  }

  /** `struct.pack("!BI", tag, n)[:4]`. */
  function TaggedTriple(tag: Byte, n: int): (b: Bytes)
    requires 0 <= n < 0x1_0000_0000
    ensures |b| == 4
  {
    ([tag] + U32(n))[..4]
  }

  class RadiusPacket {
    var code: int
    var identifier: int
    var authenticator: Bytes
    var attributes: seq<Attribute>

    function View(): Content
      reads this
    {
      Content(code, identifier, authenticator, attributes)
    }

    constructor (code: int, identifier: int, authenticator: Bytes)
      ensures View() == Content(code, identifier, authenticator, [])
    {
      this.code := code;
      this.identifier := identifier;
      this.authenticator := authenticator;
      this.attributes := [];
    }

    method AddString(kind: int, value: Bytes)
      modifies this`attributes
      ensures attributes == old(attributes) + [Attribute(kind, value)]
    {
      attributes := attributes + [Attribute(kind, value)];
    }

    method AddInteger(kind: int, value: int) returns (r: Result<(), Error>)
      modifies this`attributes
      ensures r.Ok? <==> 0 <= value < 0x1_0000_0000
      ensures attributes == if r.Ok? then old(attributes) + [Attribute(kind, U32(value))] else old(attributes)
    {
      if value < 0 || value >= 0x1_0000_0000 {
        return Err(StructError);
      }
      attributes := attributes + [Attribute(kind, U32(value))];
      return Ok(());
    }

    /** `parts` are the dot-separated numbers of the address. */
    method AddIpv4(kind: int, parts: seq<int>) returns (r: Result<(), Error>)
      modifies this`attributes
      ensures r.Ok? <==> |parts| == 4 && forall i :: 0 <= i < |parts| ==> FitsByte(parts[i])
      ensures r.Err? ==> attributes == old(attributes)
      ensures r.Ok? ==> attributes == old(attributes) + [Attribute(kind, [parts[0], parts[1], parts[2], parts[3]])]
    {
      if |parts| != 4 || !FitsByte(parts[0]) || !FitsByte(parts[1]) || !FitsByte(parts[2]) || !FitsByte(parts[3]) {
        return Err(StructError);
      }
      attributes := attributes + [Attribute(kind, [parts[0], parts[1], parts[2], parts[3]])];
      return Ok(());
    }

    method AddTunnelVlan(vlanId: int, tag: int) returns (r: Result<(), Error>)
      modifies this`attributes
      ensures r.Ok? <==> FitsByte(tag)
      ensures r.Err? ==> attributes == old(attributes)
      ensures r.Ok? ==> attributes == old(attributes) + [
        Attribute(TUNNEL_TYPE, [tag, 0, 0, 0]),
        Attribute(TUNNEL_MEDIUM_TYPE, [tag, 0, 0, 0]),
        Attribute(TUNNEL_PRIVATE_GROUP_ID, [tag] + Decimal(vlanId))]
    {
      if !FitsByte(tag) {
        return Err(StructError);
      }
      assert TaggedTriple(tag, 13) == [tag, 0, 0, 0] == TaggedTriple(tag, 6);
      attributes := attributes + [Attribute(TUNNEL_TYPE, TaggedTriple(tag, 13))];
      attributes := attributes + [Attribute(TUNNEL_MEDIUM_TYPE, TaggedTriple(tag, 6))];
      attributes := attributes + [Attribute(TUNNEL_PRIVATE_GROUP_ID, [tag] + Decimal(vlanId))];
      return Ok(());
    }

    method AddCiscoAvpair(avpair: Bytes) returns (r: Result<(), Error>)
      modifies this`attributes
      ensures r.Ok? <==> |avpair| <= 253
      ensures r.Err? ==> attributes == old(attributes)
      ensures r.Ok? ==> attributes == old(attributes) + [
        Attribute(VENDOR_SPECIFIC, U32(CISCO_VENDOR_ID) + EncodeAttribute(Attribute(CISCO_AV_PAIR, avpair)))]
    {
      if |avpair| + 2 > 255 {
        return Err(StructError);
      }
      var data := U32(CISCO_VENDOR_ID);
      data := data + [CISCO_AV_PAIR, |avpair| + 2];
      data := data + avpair;
      assert data == U32(CISCO_VENDOR_ID) + EncodeAttribute(Attribute(CISCO_AV_PAIR, avpair));
      attributes := attributes + [Attribute(VENDOR_SPECIFIC, data)];
      return Ok(());
    }

    method Encode(secret: Bytes, md5: Md5) returns (r: Result<Bytes, Error>)
      ensures r.Ok? <==> PacketFits(code, identifier, attributes)
      ensures r.Ok? ==> r.value == Encoded(code, identifier, attributes, secret, md5)
    {
      var attrsData: Bytes := [];
      for i := 0 to |attributes|
        invariant AllFit(attributes[..i])
        invariant attrsData == Flatten(attributes[..i])
      {
        var a := attributes[i];
        var attrLen := |a.value| + 2;
        if !FitsByte(a.kind) || !FitsByte(attrLen) {
          assert !AttributeFits(attributes[i]);
          return Err(StructError);
        }
        FlattenSnoc(attributes[..i], a);
        assert attributes[..i + 1] == attributes[..i] + [a];
        attrsData := attrsData + [a.kind, attrLen] + a.value;
      }
      assert attributes[..|attributes|] == attributes;
      var length := HEADER_LENGTH + |attrsData|;
      if !FitsByte(code) || !FitsByte(identifier) || length >= 0x1_0000 {
        return Err(StructError);
      }
      var header := [code, identifier] + U16(length);
      var raw := header + ZERO_AUTHENTICATOR + attrsData + secret;
      return Ok(header + md5(raw) + attrsData);
    }

    static method Decode(data: Bytes) returns (r: Result<RadiusPacket, Error>)
      ensures r.Ok? <==> Decoded(data).Ok?
      ensures r.Err? ==> r.error == Decoded(data).error
      ensures r.Ok? ==> fresh(r.value) && r.value.View() == Decoded(data).value
    {
      if |data| < HEADER_LENGTH {
        return Err(PacketTooShort);
      }
      var length := Value(data[2..4]);
      var attrsData := Slice(data, HEADER_LENGTH, length);
      var packet := new RadiusPacket(data[0], data[1], data[4..20]);
      packet.attributes := ParseLoop(attrsData);
      return Ok(packet);
    }

    static method ParseLoop(attrsData: Bytes) returns (parsed: seq<Attribute>)
      ensures parsed == ParseAttributes(attrsData)
    {
      parsed := [];
      var pos := 0;
      assert attrsData[0..] == attrsData;
      while pos < |attrsData|
        invariant 0 <= pos <= |attrsData|
        invariant parsed + ParseAttributes(attrsData[pos..]) == ParseAttributes(attrsData)
      {
        if pos + 2 > |attrsData| {
          break;
        }
        var attrLen := attrsData[pos + 1];
        if attrLen < 2 || pos + attrLen > |attrsData| {
          break;
        }
        ParseStep(attrsData, pos);
        var next := Attribute(attrsData[pos], attrsData[pos + 2..pos + attrLen]);
        ghost var tail := ParseAttributes(attrsData[pos + attrLen..]);
        assert parsed + ([next] + tail) == parsed + [next] + tail;
        parsed := parsed + [next];
        pos := pos + attrLen;
      }
      assert ParseAttributes(attrsData[pos..]) == [];
    }

    /** The first attribute of that type as text; `toText` decodes, replacing what is not UTF-8. */
    method GetAttrString(kind: int, toText: Bytes -> string) returns (r: Option<string>)
      ensures r.None? <==> forall i :: 0 <= i < |attributes| ==> attributes[i].kind != kind
      ensures r.Some? ==> exists i :: 0 <= i < |attributes| && IsFirst(attributes, i, kind) && r.value == toText(attributes[i].value)
    {
      for i := 0 to |attributes|
        invariant forall j :: 0 <= j < i ==> attributes[j].kind != kind
      {
        if attributes[i].kind == kind {
          assert IsFirst(attributes, i, kind);
          return Some(toText(attributes[i].value));
        }
      }
      return None;
    }

    method GetErrorCause() returns (r: Option<int>)
      ensures r == ErrorCause(attributes)
    {
      for i := 0 to |attributes|
        invariant ErrorCause(attributes) == ErrorCause(attributes[i..])
      {
        if attributes[i].kind == ERROR_CAUSE && |attributes[i].value| >= 4 {
          return Some(Value(attributes[i].value[..4]));
        }
      }
      return None;
    }
  }

  predicate IsFirst(attributes: seq<Attribute>, i: nat, kind: int)
    requires i < |attributes|
  {
    attributes[i].kind == kind && forall j :: 0 <= j < i ==> attributes[j].kind != kind
  }

  function ErrorCause(attributes: seq<Attribute>): Option<int> {
    if attributes == [] then None
    else if attributes[0].kind == ERROR_CAUSE && |attributes[0].value| >= 4 then Some(Value(attributes[0].value[..4]))
    else ErrorCause(attributes[1..])
  }

  // ---------------------------------------------------------------------------
  // Encoding and decoding undo each other
  // ---------------------------------------------------------------------------

  lemma {:induction false} FlattenSnoc(attributes: seq<Attribute>, a: Attribute)
    requires AllFit(attributes) && AttributeFits(a)
    ensures AllFit(attributes + [a])
    ensures Flatten(attributes + [a]) == Flatten(attributes) + EncodeAttribute(a)
  {
    if attributes == [] {
      assert [] + [a] == [a] && [a][1..] == [];
      assert Flatten([a]) == EncodeAttribute(a) + Flatten([]);
    } else {
      var first := EncodeAttribute(attributes[0]);
      assert (attributes + [a])[1..] == attributes[1..] + [a];
      FlattenSnoc(attributes[1..], a);
      assert Flatten(attributes + [a]) == first + Flatten(attributes[1..] + [a]);
    }
  }

  lemma {:induction false} ParseOfFlatten(attributes: seq<Attribute>)
    requires AllFit(attributes)
    ensures ParseAttributes(Flatten(attributes)) == attributes
  {
    if attributes != [] {
      var first := EncodeAttribute(attributes[0]);
      var data := Flatten(attributes);
      assert data[1] == |first| && data[|first|..] == Flatten(attributes[1..]);
      assert data[2..|first|] == attributes[0].value;
      ParseOfFlatten(attributes[1..]);
    }
  }

  /** Section 3 of RFC 2865: the packet comes back whole, and octets past Length are padding. */
  lemma DecodeOfEncode(code: int, identifier: int, attributes: seq<Attribute>, secret: Bytes, md5: Md5, padding: Bytes)
    requires PacketFits(code, identifier, attributes)
    ensures var packet := Encoded(code, identifier, attributes, secret, md5);
      Decoded(packet + padding) == Ok(Content(code, identifier, packet[4..20], attributes))
  {
    var body := Flatten(attributes);
    var packet := Encoded(code, identifier, attributes, secret, md5);
    var data := packet + padding;
    assert data[2..4] == U16(HEADER_LENGTH + |body|);
    ValueOfU16(HEADER_LENGTH + |body|);
    assert Slice(data, HEADER_LENGTH, HEADER_LENGTH + |body|) == body;
    assert data[4..20] == packet[4..20];
    ParseOfFlatten(attributes);
  }

  lemma EncodeInjective(code: int, identifier: int, attributes: seq<Attribute>, secret: Bytes,
                        code': int, identifier': int, attributes': seq<Attribute>, secret': Bytes, md5: Md5)
    requires PacketFits(code, identifier, attributes) && PacketFits(code', identifier', attributes')
    requires Encoded(code, identifier, attributes, secret, md5) == Encoded(code', identifier', attributes', secret', md5)
    ensures code == code' && identifier == identifier' && attributes == attributes'
  {
    DecodeOfEncode(code, identifier, attributes, secret, md5, []);
    DecodeOfEncode(code', identifier', attributes', secret', md5, []);
  }

  /**
   Section 2.3 of RFC 5176, as the receiver computes it: blank the authenticator field, append
   the shared secret, and the digest is the field.
   */
  lemma AuthenticatorVerifies(code: int, identifier: int, attributes: seq<Attribute>, secret: Bytes, md5: Md5)
    requires PacketFits(code, identifier, attributes)
    ensures var packet := Encoded(code, identifier, attributes, secret, md5);
      |packet| >= 20 && packet[4..20] == md5(packet[..4] + ZERO_AUTHENTICATOR + packet[20..] + secret)
  {
    var body := Flatten(attributes);
    var header := Header(code, identifier, HEADER_LENGTH + |body|);
    var packet := Encoded(code, identifier, attributes, secret, md5);
    assert packet[..4] == header && packet[20..] == body;
  }

  // ---------------------------------------------------------------------------
  // Decoding arbitrary octets
  // ---------------------------------------------------------------------------

  lemma ParseStep(data: Bytes, pos: nat)
    requires pos + 2 <= |data| && 2 <= data[pos + 1] <= |data| - pos
    ensures ParseAttributes(data[pos..])
         == [Attribute(data[pos], data[pos + 2..pos + data[pos + 1]])] + ParseAttributes(data[pos + data[pos + 1]..])
  {
    var rest := data[pos..];
    assert rest[1] == data[pos + 1];
    assert rest[rest[1]..] == data[pos + data[pos + 1]..];
    assert rest[2..rest[1]] == data[pos + 2..pos + data[pos + 1]];
  }

  /** What the parser takes is a prefix of the data, and it stops only where no attribute starts. */
  lemma {:induction false} ParseIsMaximal(data: Bytes)
    ensures var taken := Flatten(ParseAttributes(data));
      taken <= data && !StartsWithAttribute(data[|taken|..])
    decreases |data|
  {
    if StartsWithAttribute(data) {
      var head, rest := data[..data[1]], data[data[1]..];
      ParseIsMaximal(rest);
      FlattenCons(data);
      var taken := Flatten(ParseAttributes(rest));
      assert data == head + rest;
      assert data[|head + taken|..] == rest[|taken|..];
    }
  }

  lemma FlattenCons(data: Bytes)
    requires StartsWithAttribute(data)
    ensures Flatten(ParseAttributes(data)) == data[..data[1]] + Flatten(ParseAttributes(data[data[1]..]))
  {
    var first, tail := Attribute(data[0], data[2..data[1]]), ParseAttributes(data[data[1]..]);
    assert ParseAttributes(data) == [first] + tail;
    assert ([first] + tail)[1..] == tail;
    assert EncodeAttribute(first) == data[..data[1]];
  }

  /** No other list of attributes has that property. */
  lemma {:induction false} ParseIsUnique(data: Bytes, attributes: seq<Attribute>)
    requires AllFit(attributes) && Flatten(attributes) <= data
    requires !StartsWithAttribute(data[|Flatten(attributes)|..])
    ensures attributes == ParseAttributes(data)
    decreases |data|
  {
    if attributes == [] {
      assert data[0..] == data;
    } else {
      var first := EncodeAttribute(attributes[0]);
      var tail := Flatten(attributes[1..]);
      assert data[..|first|] == first by {
        assert first == Flatten(attributes)[..|first|];
      }
      assert data[0] == first[0] && data[1] == first[1] == |first|;
      var rest := data[|first|..];
      assert rest[..|tail|] == tail by {
        assert tail == Flatten(attributes)[|first|..];
      }
      assert rest[|tail|..] == data[|Flatten(attributes)|..];
      assert data[2..|first|] == attributes[0].value;
      ParseIsUnique(rest, attributes[1..]);
    }
  }

  /** Every octet string of at least 20 octets decodes, to the longest run of attributes it holds. */
  lemma DecodeIsTotal(data: Bytes)
    ensures Decoded(data).Ok? <==> |data| >= HEADER_LENGTH
    ensures Decoded(data).Ok? ==>
      var body := Slice(data, HEADER_LENGTH, Value(data[2..4]));
      var taken := Flatten(Decoded(data).value.attributes);
      taken <= body && !StartsWithAttribute(body[|taken|..])
  {
    if |data| >= HEADER_LENGTH {
      ParseIsMaximal(Slice(data, HEADER_LENGTH, Value(data[2..4])));
    }
  }

  /** The first Error-Cause of at least four octets in a reply is the number the other side reads. */
  lemma ErrorCauseCrosses(code: int, identifier: int, before: seq<Attribute>, cause: int, after: seq<Attribute>,
                          secret: Bytes, md5: Md5)
    requires 0 <= cause < 0x1_0000_0000
    requires forall a :: a in before ==> a.kind != ERROR_CAUSE || |a.value| < 4
    requires PacketFits(code, identifier, before + [Attribute(ERROR_CAUSE, U32(cause))] + after)
    ensures var attributes := before + [Attribute(ERROR_CAUSE, U32(cause))] + after;
      var reply := Decoded(Encoded(code, identifier, attributes, secret, md5));
      reply.Ok? && ErrorCause(reply.value.attributes) == Some(cause)
  {
    var attributes := before + [Attribute(ERROR_CAUSE, U32(cause))] + after;
    var packet := Encoded(code, identifier, attributes, secret, md5);
    DecodeOfEncode(code, identifier, attributes, secret, md5, []);
    assert packet + [] == packet;
    FirstErrorCause(before, cause, after);
  }

  lemma {:induction false} FirstErrorCause(before: seq<Attribute>, cause: int, after: seq<Attribute>)
    requires 0 <= cause < 0x1_0000_0000
    requires forall a :: a in before ==> a.kind != ERROR_CAUSE || |a.value| < 4
    ensures ErrorCause(before + [Attribute(ERROR_CAUSE, U32(cause))] + after) == Some(cause)
  {
    var attributes := before + [Attribute(ERROR_CAUSE, U32(cause))] + after;
    if before == [] {
      assert attributes[0] == Attribute(ERROR_CAUSE, U32(cause));
      assert U32(cause)[..4] == U32(cause);
      ValueOfU32(cause);
    } else {
      assert attributes[1..] == before[1..] + [Attribute(ERROR_CAUSE, U32(cause))] + after;
      assert attributes[0] == before[0] && before[0] in before;
      FirstErrorCause(before[1..], cause, after);
    }
  }

  // ---------------------------------------------------------------------------
  // Tunnel attributes, and packet identifiers
  // ---------------------------------------------------------------------------

  /** The value field of sections 3.1 and 3.2 of RFC 2868: three octets after the tag. */
  function TunnelValue(b: Bytes): int
    requires |b| == 4
  {
    Value(b[1..])
  }

  /**
   Cutting the packed integer to three octets keeps the high ones: what arrives is n / 256, so
   the number meant arrives only when it is 0, never as VLAN (13) or IEEE-802 (6).
   */
  lemma TunnelValueLosesLowOctet(tag: Byte, n: int)
    requires 0 <= n < 0x1_0000_0000
    ensures TunnelValue(TaggedTriple(tag, n)) == n / 256
    ensures TunnelValue(TaggedTriple(tag, n)) == n <==> n == 0
  {
    var high, middle, low := n / 0x100_0000, n / 0x1_0000 % 256, n / 256 % 256;
    assert TaggedTriple(tag, n)[1..] == [high, middle, low];
    ValueOfTriple(high, middle, low);
    assert 256 * high + middle == n / 0x1_0000;
    assert 256 * (n / 0x1_0000) + low == n / 256;
  }

  function DecimalValue(b: Bytes): int {
    if b == [] then 0
    else if b[0] == 45 then -DecimalValue(b[1..])
    else 10 * DecimalValue(b[..|b| - 1]) + (b[|b| - 1] as int - 48)
  }

  /** The group id text, unlike the two integers, carries the VLAN number exactly. */
  lemma {:induction false} VlanIdSurvives(n: int)
    ensures DecimalValue(Decimal(n)) == n
    ensures n >= 0 ==> Decimal(n)[0] != 45
    decreases n < 0, if n < 0 then -n else n
  {
    if n < 0 {
      VlanIdSurvives(-n);
      assert Decimal(n)[1..] == Decimal(-n);
    } else if n < 10 {
      assert Decimal(n)[..0] == [];
    } else {
      VlanIdSurvives(n / 10);
      assert Decimal(n)[..|Decimal(n)| - 1] == Decimal(n / 10);
    }
  }

  class CoAManager {
    var identifier: int

    constructor ()
      ensures identifier == 0
    {
      identifier := 0;
    }

    method NextId() returns (id: int)
      modifies this`identifier
      ensures id == identifier == IdAfter(old(identifier), 1)
    {
      identifier := (identifier + 1) % 256;
      id := identifier;
    }
  }

  /** The identifier after `count` packets. */
  function IdAfter(start: int, count: nat): int {
    if count == 0 then start else (IdAfter(start, count - 1) + 1) % 256
  }

  lemma {:induction false} IdAfterIsOffset(start: int, count: nat)
    requires FitsByte(start)
    ensures IdAfter(start, count) == (start + count) % 256
  {
    if count > 0 {
      IdAfterIsOffset(start, count - 1);
    }
  }

  /** Identifiers fit their octet, and one comes back after exactly 256 packets. */
  lemma IdentifiersCycle(start: int, first: nat, second: nat)
    requires FitsByte(start)
    ensures FitsByte(IdAfter(start, first))
    ensures IdAfter(start, first) == IdAfter(start, second) <==> first % 256 == second % 256
  {
    IdAfterIsOffset(start, first);
    IdAfterIsOffset(start, second);
    OffsetWraps(start, first);
    OffsetWraps(start, second);
  }

  lemma OffsetWraps(start: int, count: nat)
    requires FitsByte(start)
    ensures (start + count) % 256 == if start + count % 256 < 256 then start + count % 256 else start + count % 256 - 256
  {
    var whole := count / 256;
    assert start + count == 256 * whole + (start + count % 256);
  }
}
