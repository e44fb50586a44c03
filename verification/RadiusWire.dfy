/**
 The packets of the codec octet by octet, as sections 3 and 5 of RFC 2865 lay them out, and what a
 receiver finds in the attributes that a VLAN change and a Cisco command put there.
 */
module RadiusWire {
  import opened Wrappers
  import opened Bytes
  import opened RadiusPacket

  // ---------------------------------------------------------------------------
  // Where everything is
  // ---------------------------------------------------------------------------

  /** Attributes follow the twenty octets of the header, each two octets longer than its value. */
  function Offset(attributes: seq<Attribute>, i: nat): nat
    requires i <= |attributes|
  {
    if i == 0 then 20 else Offset(attributes, i - 1) + 2 + |attributes[i - 1].value|
  }

  lemma {:induction false} OffsetTail(attributes: seq<Attribute>, i: nat)
    requires 0 < i <= |attributes|
    ensures Offset(attributes, i) == Offset(attributes[1..], i - 1) + 2 + |attributes[0].value|
    decreases i
  {
    if i > 1 {
      OffsetTail(attributes, i - 1);
    }
  }

  /** At an offset stand an attribute's type, its length and its value. */
  predicate HoldsAt(packet: Bytes, at: nat, a: Attribute) {
    && at + 2 + |a.value| <= |packet|
    && packet[at] == a.kind && packet[at + 1] == 2 + |a.value| && packet[at + 2..at + 2 + |a.value|] == a.value
  }

  lemma HoldsBehind(front: Bytes, b: Bytes, at: nat, a: Attribute)
    requires HoldsAt(b, at, a)
    ensures HoldsAt(front + b, |front| + at, a)
  {
    var n := |a.value|;
    assert (front + b)[|front| + at + 2..|front| + at + 2 + n] == b[at + 2..at + 2 + n];
  }

  lemma HoldsFirst(a: Attribute, rest: Bytes)
    requires AttributeFits(a)
    ensures HoldsAt(EncodeAttribute(a) + rest, 0, a)
  {
    assert (EncodeAttribute(a) + rest)[2..2 + |a.value|] == a.value;
  }

  lemma {:induction false} OffsetAtLeast(attributes: seq<Attribute>, i: nat)
    requires i <= |attributes|
    ensures Offset(attributes, i) >= 20
    decreases i
  {
    if i > 0 {
      OffsetAtLeast(attributes, i - 1);
    }
  }

  lemma {:induction false} FlattenAt(attributes: seq<Attribute>, i: nat)
    requires AllFit(attributes) && i < |attributes|
    ensures Offset(attributes, i) >= 20 && HoldsAt(Flatten(attributes), Offset(attributes, i) - 20, attributes[i])
    decreases |attributes|
  {
    var first, rest := EncodeAttribute(attributes[0]), Flatten(attributes[1..]);
    if i == 0 {
      HoldsFirst(attributes[0], rest);
    } else {
      FlattenAt(attributes[1..], i - 1);
      OffsetTail(attributes, i);
      HoldsBehind(first, rest, Offset(attributes[1..], i - 1) - 20, attributes[i]);
    }
  }

  lemma {:induction false} FlattenLength(attributes: seq<Attribute>)
    requires AllFit(attributes)
    ensures |Flatten(attributes)| + 20 == Offset(attributes, |attributes|)
    decreases |attributes|
  {
    if attributes != [] {
      OffsetTail(attributes, |attributes|);
      FlattenLength(attributes[1..]);
    }
  }

  /** Code, identifier, length of the whole, and every attribute at its offset: type, length, value. */
  lemma PacketOctets(code: int, identifier: int, attributes: seq<Attribute>, secret: Bytes, md5: Md5)
    requires PacketFits(code, identifier, attributes)
    ensures var packet := Encoded(code, identifier, attributes, secret, md5);
            && |packet| == Offset(attributes, |attributes|) >= 20
            && packet[0] == code && packet[1] == identifier && packet[2] as int * 256 + packet[3] as int == |packet|
            && forall i :: 0 <= i < |attributes| ==> HoldsAt(packet, Offset(attributes, i), attributes[i])
  {
    var body := Flatten(attributes);
    var header := Header(code, identifier, HEADER_LENGTH + |body|);
    var front := header + md5(header + ZERO_AUTHENTICATOR + body + secret);
    FlattenLength(attributes);
    assert Encoded(code, identifier, attributes, secret, md5) == front + body && |front| == 20;
    forall i | 0 <= i < |attributes| ensures HoldsAt(front + body, Offset(attributes, i), attributes[i]) {
      FlattenAt(attributes, i);
      HoldsBehind(front, body, Offset(attributes, i) - 20, attributes[i]);
    }
  }

  /** A packet goes out exactly when code, identifier, types, attribute lengths and the whole length have room in their fields. */
  lemma FitsExactly(code: int, identifier: int, attributes: seq<Attribute>)
    ensures PacketFits(code, identifier, attributes) <==>
            && 0 <= code <= 255 && 0 <= identifier <= 255 && Offset(attributes, |attributes|) <= 65535
            && forall a :: a in attributes ==> 0 <= a.kind <= 255 && |a.value| + 2 <= 255
  {
    if forall a :: a in attributes ==> 0 <= a.kind <= 255 && |a.value| + 2 <= 255 {
      assert AllFit(attributes);
    }
    if AllFit(attributes) {
      FlattenLength(attributes);
      forall a | a in attributes ensures 0 <= a.kind <= 255 && |a.value| + 2 <= 255 {
        var i :| 0 <= i < |attributes| && attributes[i] == a;
        assert AttributeFits(attributes[i]);
      }
    }
  }

  /**
   What any octets decode to: the header fields, and the attributes between the header and the
   length it announces, which is cut at the end of the data and leaves nothing when it is below 20.
   */
  lemma DecodeReads(data: Bytes)
    ensures |data| < 20 ==> Decoded(data) == Err(PacketTooShort)
    ensures |data| >= 20 ==>
              var length := data[2] as int * 256 + data[3] as int;
              var body := if length <= 20 then [] else if length < |data| then data[20..length] else data[20..];
              Decoded(data) == Ok(Content(data[0], data[1], data[4..20], ParseAttributes(body)))
  {
    if |data| >= 20 {
      var length := data[2] as int * 256 + data[3] as int;
      assert data[2..4] == U16(length);
      ValueOfU16(length);
      var body := if length <= 20 then [] else if length < |data| then data[20..length] else data[20..];
      assert Slice(data, HEADER_LENGTH, length) == body;
    }
  }

  // ---------------------------------------------------------------------------
  // The VLAN of a change
  // ---------------------------------------------------------------------------

  predicate IsDigit(b: Byte) {
    48 <= b <= 57
  }

  /** A decimal numeral: digits, and no zero in front of others. */
  predicate IsNumeral(b: Bytes) {
    b != [] && (forall i :: 0 <= i < |b| ==> IsDigit(b[i])) && (b[0] == 48 ==> |b| == 1)
  }

  lemma {:induction false} DecimalIsNumeral(n: int)
    requires n >= 0
    ensures IsNumeral(Decimal(n)) && (n > 0 ==> Decimal(n)[0] != 48)
    decreases n
  {
    if n >= 10 {
      DecimalIsNumeral(n / 10);
    }
  }

  lemma {:induction false} NumeralIsPositive(b: Bytes)
    requires IsNumeral(b)
    ensures DecimalValue(b) >= 0 && (b[0] != 48 ==> DecimalValue(b) > 0)
    decreases |b|
  {
    if |b| > 1 {
      NumeralIsPositive(b[..|b| - 1]);
    } else {
      assert b[..0] == [];
    }
  }

  /** There is one numeral for a number. */
  lemma {:induction false} NumeralIsDecimal(b: Bytes)
    requires IsNumeral(b)
    ensures b == Decimal(DecimalValue(b))
    decreases |b|
  {
    var front, last := b[..|b| - 1], b[|b| - 1];
    if |b| == 1 {
      assert front == [];
      assert DecimalValue(b) == last as int - 48;
    } else {
      NumeralIsPositive(front);
      NumeralIsDecimal(front);
      assert DecimalValue(b) == 10 * DecimalValue(front) + (last as int - 48);
      assert DecimalValue(b) >= 10 && DecimalValue(b) / 10 == DecimalValue(front) && DecimalValue(b) % 10 == last as int - 48;
      assert b == front + [last];
    }
  }

  /** The three attributes of a VLAN change, as they are sent. */
  function TunnelAttributes(vlanId: int, tag: Byte): seq<Attribute> {
    [Attribute(TUNNEL_TYPE, [tag, 0, 0, 0]), Attribute(TUNNEL_MEDIUM_TYPE, [tag, 0, 0, 0]),
     Attribute(TUNNEL_PRIVATE_GROUP_ID, [tag] + Decimal(vlanId))]
  }

  /** What the receiver decodes as the group id: the tag, and the one decimal numeral of the VLAN. */
  lemma VlanArrives(code: int, identifier: int, before: seq<Attribute>, vlanId: nat, tag: Byte, after: seq<Attribute>,
                    secret: Bytes, md5: Md5)
    requires PacketFits(code, identifier, before + TunnelAttributes(vlanId, tag) + after)
    ensures var attributes := before + TunnelAttributes(vlanId, tag) + after;
            var packet := Decoded(Encoded(code, identifier, attributes, secret, md5));
            && packet.Ok? && |packet.value.attributes| == |attributes|
            && var group := packet.value.attributes[|before| + 2];
               && group.kind == 81 && |group.value| > 1 && group.value[0] == tag
               && IsNumeral(group.value[1..]) && DecimalValue(group.value[1..]) == vlanId
  {
    var attributes := before + TunnelAttributes(vlanId, tag) + after;
    DecodeOfEncode(code, identifier, attributes, secret, md5, []);
    var packet := Encoded(code, identifier, attributes, secret, md5);
    assert packet + [] == packet;
    assert attributes[|before| + 2] == TunnelAttributes(vlanId, tag)[2];
    assert ([tag] + Decimal(vlanId))[1..] == Decimal(vlanId);
    DecimalIsNumeral(vlanId);
    VlanIdSurvives(vlanId);
  }

  lemma VlanFortyTwo()
    ensures Decimal(42) == [52, 50] && Decimal(4094) == [52, 48, 57, 52] && Decimal(0) == [48]
  {
    assert Decimal(4) == [52];
    assert Decimal(40) == [52, 48];
    assert Decimal(409) == [52, 48, 57];
  }

  // ---------------------------------------------------------------------------
  // A Cisco command
  // ---------------------------------------------------------------------------

  /** Inside the vendor attribute: vendor 9, sub-type 1, a length that covers both octets, and the text. */
  lemma CiscoAvpairOctets(avpair: Bytes)
    requires |avpair| <= 253
    ensures var v := U32(CISCO_VENDOR_ID) + EncodeAttribute(Attribute(CISCO_AV_PAIR, avpair));
            |v| == 6 + |avpair| && v[..4] == [0, 0, 0, 9] && v[4] == 1 && v[5] == |avpair| + 2 && v[6..] == avpair
  {
  }
}
