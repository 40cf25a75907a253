/** Binding responses of the STUN protocol (sections 6, 15 and 15.2 of RFC 5389): finding the mapped address. */
module Stun {
  import opened Bytes

  const BINDING_REQUEST: nat := 0x0001
  const BINDING_RESPONSE: nat := 0x0101
  const BINDING_ERROR: nat := 0x0111
  const MAPPED_ADDRESS: nat := 0x0001
  const XOR_MAPPED_ADDRESS: nat := 0x0020
  const COOKIE: nat := 0x2112A442

  // ------------------------------------------------------------------------------------------
  // Exclusive or
  // ------------------------------------------------------------------------------------------

  /** Bit by bit, least significant first. */
  function Xor(a: nat, b: nat): nat {
    if a == 0 && b == 0 then 0 else 2 * Xor(a / 2, b / 2) + (a + b) % 2
  }

  /** What fixes the exclusive or: it is taken bit by bit, and nothing comes of nothing. */
  lemma {:induction false} XorBits(a: nat, b: nat)
    ensures Xor(0, 0) == 0
    ensures Xor(a, b) / 2 == Xor(a / 2, b / 2) && Xor(a, b) % 2 == (a % 2 + b % 2) % 2
  {
    assert (a + b) % 2 == (a % 2 + b % 2) % 2;
  }

  lemma {:induction false} XorTwice(a: nat, b: nat)
    ensures Xor(Xor(a, b), b) == a
  {
    if a == 0 && b == 0 {
      assert Xor(0, 0) == 0;
    } else {
      hide Xor;
      XorTwice(a / 2, b / 2);
      var c := Xor(a, b);
      XorBits(a, b);
      XorBits(c, b);
      SameBits(Xor(c, b), a, b % 2);
    }
  }

  lemma SameBits(x: nat, y: nat, bit: nat)
    requires x / 2 == y / 2 && bit < 2 && x % 2 == ((y % 2 + bit) % 2 + bit) % 2
    ensures x == y
  {
  }

  function Pow2(n: nat): nat {
    if n == 0 then 1 else 2 * Pow2(n - 1)
  }

  lemma {:induction false} XorBelow(a: nat, b: nat, n: nat)
    requires a < Pow2(n) && b < Pow2(n)
    ensures Xor(a, b) < Pow2(n)
    decreases n
  {
    if n > 0 {
      XorBelow(a / 2, b / 2, n - 1);
    }
  }

  lemma Pow2Widths()
    ensures Pow2(16) == 0x1_0000 && Pow2(32) == TWO_32
  {
    assert Pow2(8) == 0x100;
    assert Pow2(16) == 0x1_0000;
    assert Pow2(24) == 0x100_0000;
  }

  // ------------------------------------------------------------------------------------------
  // The parser
  // ------------------------------------------------------------------------------------------

  datatype Outcome =
    | Address(ip: Bytes, port: nat)
    | InvalidResponse
    | BindingFailed
    | UnexpectedType
    | BadCookie
    | WrongTransaction
    | NoMappedAddress
    | AddressTooShort
    | FamilyNotSupported

  function ParseXorMappedAddress(value: Bytes, cookie: Bytes): Outcome
    requires |cookie| == 4
  {
    if |value| < 8 then AddressTooShort
    else if value[1] == 1 then
      Address(BigEndian(4, Xor(FromBigEndian(value[4..8]), COOKIE)),
              Xor(FromBigEndian(value[2..4]), FromBigEndian(cookie) / 0x1_0000))
    else if value[1] == 2 then if |value| < 20 then AddressTooShort else FamilyNotSupported
    else FamilyNotSupported
  }

  function ParseMappedAddress(value: Bytes): Outcome {
    if |value| < 8 then AddressTooShort
    else if value[1] == 1 then Address(value[4..8], FromBigEndian(value[2..4]))
    else if value[1] == 2 then
      if |value| < 20 then AddressTooShort else Address(value[4..20], FromBigEndian(value[2..4]))
    else FamilyNotSupported
  }

  /** Attributes start at multiples of four. */
  function Padding(len: nat): nat {
    if len % 4 == 0 then 0 else 4 - len % 4
  }

  /** The walk over the attributes between `pos` and `end`: the first address attribute decides. */
  function Walk(data: Bytes, pos: nat, end: nat): Outcome
    requires 20 <= end <= |data|
    decreases end - pos
  {
    if pos + 4 > end then NoMappedAddress else
      var kind, len := FromBigEndian(data[pos..pos + 2]), FromBigEndian(data[pos + 2..pos + 4]);
      if pos + 4 + len > end then NoMappedAddress
      else if kind == XOR_MAPPED_ADDRESS then ParseXorMappedAddress(data[pos + 4..pos + 4 + len], data[4..8])
      else if kind == MAPPED_ADDRESS then ParseMappedAddress(data[pos + 4..pos + 4 + len])
      else Walk(data, pos + 4 + len + Padding(len), end)
  }

  /** The checks on the header, in the order they are made. */
  function CheckHeader(data: Bytes, tx: Bytes): Option<Outcome> {
    if |data| < 20 then Some(InvalidResponse)
    else if FromBigEndian(data[0..2]) != BINDING_RESPONSE then
      Some(if FromBigEndian(data[0..2]) == BINDING_ERROR then BindingFailed else UnexpectedType)
    else if FromBigEndian(data[4..8]) != COOKIE then Some(BadCookie)
    else if |tx| == 12 && data[8..20] != tx then Some(WrongTransaction)
    else if |data| < 20 + FromBigEndian(data[2..4]) then Some(InvalidResponse)
    else None
  }

  /** The two bytes of the message, as they stand there. */
  function Two(data: Bytes, pos: nat): nat
    requires pos + 2 <= |data|
  {
    0x100 * (data[pos] as int) + data[pos + 1]
  }

  /** A binding success response with the magic cookie, for this transaction if it has an ID of twelve bytes. */
  predicate Addressed(data: Bytes, tx: Bytes) {
    && 20 <= |data| && data[0..2] == [0x01, 0x01] && data[4..8] == [0x21, 0x12, 0xA4, 0x42]
    && (|tx| == 12 ==> data[8..20] == tx)
  }

  /** The bytes that lead to each outcome. The last three and an address need a response that is addressed to this
      transaction and whole. */
  ghost predicate Explains(r: Outcome, data: Bytes, tx: Bytes) {
    match r
    case InvalidResponse => |data| < 20 || (Addressed(data, tx) && |data| < 20 + Two(data, 2))
    case BindingFailed => 20 <= |data| && data[0..2] == [0x01, 0x11]
    case UnexpectedType => 20 <= |data| && data[0..2] != [0x01, 0x01] && data[0..2] != [0x01, 0x11]
    case BadCookie => 20 <= |data| && data[0..2] == [0x01, 0x01] && data[4..8] != [0x21, 0x12, 0xA4, 0x42]
    case WrongTransaction =>
      && 20 <= |data| && data[0..2] == [0x01, 0x01] && data[4..8] == [0x21, 0x12, 0xA4, 0x42]
      && |tx| == 12 && data[8..20] != tx
    case _ => Addressed(data, tx) && 20 + Two(data, 2) <= |data|
  }

  /** Whole messages for this transaction go on to the walk; of every other input exactly one failure is true. */
  lemma HeaderExact(data: Bytes, tx: Bytes)
    ensures CheckHeader(data, tx) == None <==> Addressed(data, tx) && 20 + Two(data, 2) <= |data|
    ensures CheckHeader(data, tx).Some? ==> Explains(CheckHeader(data, tx).value, data, tx)
    ensures |data| >= 4 ==> FromBigEndian(data[2..4]) == Two(data, 2)
  {
    if |data| >= 4 {
      FromBigEndianValue(data[2..4]);
    }
    if |data| >= 20 {
      FromBigEndianValue(data[0..2]);
      FromBigEndianValue(data[4..8]);
      hide FromBigEndian;
      TypeBytes(data[0..2]);
      CookieBytes(data[4..8]);
    }
  }

  lemma TypeBytes(s: Bytes)
    requires |s| == 2 && FromBigEndian(s) == 0x100 * (s[0] as int) + s[1]
    ensures FromBigEndian(s) == 0x0101 <==> s == [0x01, 0x01]
    ensures FromBigEndian(s) == 0x0111 <==> s == [0x01, 0x11]
  {
  }

  lemma CookieBytes(s: Bytes)
    requires |s| == 4
    requires FromBigEndian(s)
             == 0x100_0000 * (s[0] as int) + 0x1_0000 * (s[1] as int) + 0x100 * (s[2] as int) + s[3]
    ensures FromBigEndian(s) == 0x2112A442 <==> s == [0x21, 0x12, 0xA4, 0x42]
  {
    hide FromBigEndian;
    if FromBigEndian(s) == 0x2112A442 {
      assert s[3] == 0x42 && s[2] == 0xA4 && s[1] == 0x12 && s[0] == 0x21;
    }
  }

  method ParseStunResponse(data: Bytes, tx: Bytes) returns (r: Outcome)
    ensures r == match CheckHeader(data, tx)
                 case Some(failure) => failure
                 case None => Walk(data, 20, 20 + FromBigEndian(data[2..4]))
    ensures Explains(r, data, tx)
    ensures r.Address? ==>
              && Addressed(data, tx) && 20 + Two(data, 2) <= |data|
              && HasAddress(data, 20 + Two(data, 2), 20)
    ensures Addressed(data, tx) && 20 + Two(data, 2) <= |data| ==>
              (r == NoMappedAddress <==> !HasAddress(data, 20 + Two(data, 2), 20))
  {
    r := CheckAndWalk(data, tx);
    HeaderExact(data, tx);
    hide FromBigEndian, Walk, CheckHeader, HasAddress;
    if CheckHeader(data, tx).None? {
      WalkKinds(data, 20 + Two(data, 2), 20);
    }
  }

  method CheckAndWalk(data: Bytes, tx: Bytes) returns (r: Outcome)
    ensures r == match CheckHeader(data, tx)
                 case Some(failure) => failure
                 case None => Walk(data, 20, 20 + FromBigEndian(data[2..4]))
  {
    hide FromBigEndian, Walk;
    if |data| < 20 {
      return InvalidResponse;
    }
    var kind := FromBigEndian(data[0..2]);
    if kind != BINDING_RESPONSE {
      return if kind == BINDING_ERROR then BindingFailed else UnexpectedType;
    }
    if FromBigEndian(data[4..8]) != COOKIE {
      return BadCookie;
    }
    if |tx| == 12 {
      for i := 0 to 12
        invariant forall k :: 0 <= k < i ==> data[8 + k] == tx[k]
      {
        if data[8 + i] != tx[i] {
          assert data[8..20][i] != tx[i];
          return WrongTransaction;
        }
      }
      assert data[8..20] == tx;
    }
    var msgLen := FromBigEndian(data[2..4]);
    if |data| < 20 + msgLen {
      return InvalidResponse;
    }
    r := WalkAttributes(data, 20 + msgLen);
  }

  // What the walk does, in numbers.

  /** An attribute header and all of its value lie before the end. */
  predicate Whole(data: Bytes, end: nat, pos: nat)
    requires end <= |data|
  {
    pos + 4 <= end && pos + 4 + Two(data, pos + 2) <= end
  }

  /** A whole attribute of one of the two address types. */
  predicate AddressAt(data: Bytes, end: nat, pos: nat)
    requires end <= |data|
  {
    Whole(data, end, pos) && (Two(data, pos) == 0x0020 || Two(data, pos) == 0x0001)
  }

  /** Stepping over whole attributes of other types leads from `pos` to `q`. An attribute takes four bytes and its
      value, rounded up to a multiple of four. */
  predicate Reaches(data: Bytes, end: nat, pos: nat, q: nat)
    requires end <= |data|
    decreases end - pos
  {
    || q == pos
    || (&& Whole(data, end, pos) && !AddressAt(data, end, pos)
        && Reaches(data, end, pos + 4 + (Two(data, pos + 2) + 3) / 4 * 4, q))
  }

  lemma PaddedLength(len: nat)
    ensures len + Padding(len) == (len + 3) / 4 * 4
  {
  }

  /** One step of the walk, in numbers. */
  lemma WalkStep(data: Bytes, end: nat, pos: nat)
    requires 20 <= end <= |data|
    ensures !Whole(data, end, pos) ==> Walk(data, pos, end) == NoMappedAddress
    ensures Whole(data, end, pos) ==>
              var len := Two(data, pos + 2);
              var value := data[pos + 4..pos + 4 + len];
              Walk(data, pos, end) ==
                if Two(data, pos) == 0x0020 then ParseXorMappedAddress(value, data[4..8])
                else if Two(data, pos) == 0x0001 then ParseMappedAddress(value)
                else Walk(data, pos + 4 + (len + 3) / 4 * 4, end)
  {
    if pos + 4 <= end {
      FromBigEndianValue(data[pos..pos + 2]);
      FromBigEndianValue(data[pos + 2..pos + 4]);
      PaddedLength(Two(data, pos + 2));
      hide FromBigEndian;
    }
  }

  /** The walk comes to an address attribute. */
  ghost predicate HasAddress(data: Bytes, end: nat, pos: nat)
    requires end <= |data|
  {
    exists q: nat :: Reaches(data, end, pos, q) && AddressAt(data, end, q)
  }

  /** The first address attribute the walk comes to decides... */
  lemma {:induction false} WalkDecided(data: Bytes, end: nat, pos: nat, q: nat)
    requires 20 <= end <= |data| && Reaches(data, end, pos, q) && AddressAt(data, end, q)
    ensures var value := data[q + 4..q + 4 + Two(data, q + 2)];
            Walk(data, pos, end) == if Two(data, q) == 0x0020 then ParseXorMappedAddress(value, data[4..8])
                                    else ParseMappedAddress(value)
    decreases end - pos
  {
    WalkStep(data, end, pos);
    hide Walk, ParseXorMappedAddress, ParseMappedAddress, Two;
    if q != pos {
      WalkDecided(data, end, pos + 4 + (Two(data, pos + 2) + 3) / 4 * 4, q);
    }
  }

  /** ... and where it comes to none there is no address. */
  lemma {:induction false} WalkUndecided(data: Bytes, end: nat, pos: nat)
    requires 20 <= end <= |data| && !HasAddress(data, end, pos)
    ensures Walk(data, pos, end) == NoMappedAddress
    decreases end - pos
  {
    WalkStep(data, end, pos);
    hide Walk, ParseXorMappedAddress, ParseMappedAddress, Two;
    assert Reaches(data, end, pos, pos);
    if Whole(data, end, pos) {
      var next := pos + 4 + (Two(data, pos + 2) + 3) / 4 * 4;
      forall q: nat | Reaches(data, end, next, q) ensures Reaches(data, end, pos, q) {}
      WalkUndecided(data, end, next);
    }
  }

  /** An address attribute never reads as a missing one. */
  lemma WalkKinds(data: Bytes, end: nat, pos: nat)
    requires 20 <= end <= |data|
    ensures Walk(data, pos, end) == NoMappedAddress <==> !HasAddress(data, end, pos)
    ensures HasAddress(data, end, pos) ==>
              Walk(data, pos, end).Address? || Walk(data, pos, end) in {AddressTooShort, FamilyNotSupported}
  {
    hide Walk, Reaches, AddressAt, ParseXorMappedAddress, ParseMappedAddress;
    if q: nat :| Reaches(data, end, pos, q) && AddressAt(data, end, q) {
      WalkDecided(data, end, pos, q);
      AddressBounds(data, end, q);
      XorOutcome(data[q + 4..q + 4 + Two(data, q + 2)], data[4..8]);
      PlainOutcome(data[q + 4..q + 4 + Two(data, q + 2)]);
    } else {
      WalkUndecided(data, end, pos);
    }
  }

  lemma AddressBounds(data: Bytes, end: nat, q: nat)
    requires end <= |data| && AddressAt(data, end, q)
    ensures q + 4 <= |data| && q + 4 + Two(data, q + 2) <= |data|
  {
  }

  /** An exclusive-or address, in numbers: which bytes are read, and what they are combined with. */
  lemma XorOutcome(value: Bytes, cookie: Bytes)
    requires |cookie| == 4
    ensures match ParseXorMappedAddress(value, cookie)
            case Address(ip, port) =>
              && 8 <= |value| && value[1] == 1
              && (cookie == [0x21, 0x12, 0xA4, 0x42] ==>
                    ip == BigEndian(4, Xor(FromBigEndian(value[4..8]), 0x2112A442))
                    && port == Xor(Two(value, 2), 0x2112))
            case AddressTooShort => |value| < 8 || (value[1] == 2 && |value| < 20)
            case FamilyNotSupported => 8 <= |value| && value[1] != 1 && (value[1] == 2 ==> 20 <= |value|)
            case _ => false
  {
    hide Xor, BigEndian;
    FromBigEndianValue(cookie);
    hide FromBigEndian;
    CookieBytes(cookie);
    if 8 <= |value| {
      FromBigEndianValue(value[2..4]);
    }
  }

  /** A plain address, in numbers. */
  lemma PlainOutcome(value: Bytes)
    ensures match ParseMappedAddress(value)
            case Address(ip, port) =>
              && 8 <= |value| && port == Two(value, 2)
              && ((value[1] == 1 && ip == value[4..8]) || (value[1] == 2 && 20 <= |value| && ip == value[4..20]))
            case AddressTooShort => |value| < 8 || (value[1] == 2 && |value| < 20)
            case FamilyNotSupported => 8 <= |value| && value[1] != 1 && value[1] != 2
            case _ => false
  {
    if 8 <= |value| {
      FromBigEndianValue(value[2..4]);
    }
    hide FromBigEndian;
  }

  /** Steps from attribute to attribute until one of them holds an address. */
  method WalkAttributes(data: Bytes, end: nat) returns (r: Outcome)
    requires 20 <= end <= |data|
    ensures r == Walk(data, 20, end)
  {
    hide FromBigEndian;
    var pos := 20;
    while pos < end
      invariant Walk(data, 20, end) == Walk(data, pos, end)
      decreases end - pos
    {
      if pos + 4 > end {
        break;
      }
      var attrType, attrLen := FromBigEndian(data[pos..pos + 2]), FromBigEndian(data[pos + 2..pos + 4]);
      if pos + 4 + attrLen > end {
        break;
      }
      var value := data[pos + 4..pos + 4 + attrLen];
      if attrType == XOR_MAPPED_ADDRESS {
        return ParseXorMappedAddress(value, data[4..8]);
      } else if attrType == MAPPED_ADDRESS {
        return ParseMappedAddress(value);
      }
      pos := pos + 4 + attrLen;
      if attrLen % 4 != 0 {
        pos := pos + 4 - attrLen % 4;
      }
    }
    return NoMappedAddress;
  }

  /** The request: a header with no attributes, in a zeroed buffer. */
  method BuildStunRequest(tx: Bytes) returns (msg: array<byte>)
    ensures fresh(msg) && msg[..] == Header(BINDING_REQUEST, 0, TransactionId(tx))
    ensures msg[..] == [0x00, 0x01, 0x00, 0x00, 0x21, 0x12, 0xA4, 0x42] + TransactionId(tx)
  {
    RequestHead();
    hide BigEndian;
    msg := new byte[20](i => 0);
    assert msg[..] == Zeros(20);
    Store(msg, 0, BigEndian(2, BINDING_REQUEST));
    assert msg[..] == BigEndian(2, BINDING_REQUEST) + Zeros(18);
    Store(msg, 2, BigEndian(2, 0));
    ghost var kind := BigEndian(2, BINDING_REQUEST) + BigEndian(2, 0);
    assert msg[..] == kind + Zeros(16);
    Store(msg, 4, BigEndian(4, COOKIE));
    ghost var head := kind + BigEndian(4, COOKIE);
    assert msg[..] == head + Zeros(12);
    Store(msg, 8, tx[..Min(|tx|, 12)]);
    assert msg[..] == head + TransactionId(tx);
  }

  lemma RequestHead()
    ensures BigEndian(2, BINDING_REQUEST) + BigEndian(2, 0) + BigEndian(4, COOKIE)
            == [0x00, 0x01, 0x00, 0x00, 0x21, 0x12, 0xA4, 0x42]
  {
    hide BigEndian;
    BigEndianBytes(BINDING_REQUEST);
    BigEndianBytes(0);
    BigEndianBytes(COOKIE);
    assert BigEndian(4, COOKIE) == [0x21, 0x12, 0xA4, 0x42];
  }

  function Zeros(n: nat): Bytes {
    seq(n, _ => 0)
  }

  /** Twelve bytes: what is longer is cut, what is shorter is filled up with zeros. */
  function TransactionId(tx: Bytes): (r: Bytes)
    ensures |r| == 12 && forall i :: 0 <= i < 12 ==> r[i] == if i < |tx| then tx[i] else 0
  {
    tx[..Min(|tx|, 12)] + Zeros(12 - Min(|tx|, 12))
  }

  // ------------------------------------------------------------------------------------------
  // The server's side
  // ------------------------------------------------------------------------------------------

  function Header(kind: nat, length: nat, tx: Bytes): (r: Bytes)
    ensures |r| == 8 + |tx|
  {
    BigEndian(2, kind) + BigEndian(2, length) + BigEndian(4, COOKIE) + tx
  }

  /** An attribute with whatever bytes pad it. */
  datatype Attribute = Attribute(kind: nat, value: Bytes, padding: Bytes)

  predicate WellFormed(a: Attribute) {
    a.kind < 0x1_0000 && |a.value| < 0x1_0000 && |a.padding| == Padding(|a.value|)
  }

  function EncodeAttribute(a: Attribute): Bytes {
    BigEndian(2, a.kind) + BigEndian(2, |a.value|) + a.value + a.padding
  }

  function EncodeAttributes(attrs: seq<Attribute>): Bytes {
    if attrs == [] then [] else EncodeAttribute(attrs[0]) + EncodeAttributes(attrs[1..])
  }

  predicate IsOther(a: Attribute) {
    WellFormed(a) && a.kind != MAPPED_ADDRESS && a.kind != XOR_MAPPED_ADDRESS
  }

  /** The value of an address attribute for an IPv4 address. */
  function AddressValue(xored: bool, reserved: byte, ip: Bytes, port: nat): Bytes
    requires |ip| == 4
  {
    if xored then
      [reserved, 1] + BigEndian(2, Xor(port, COOKIE / 0x1_0000)) + BigEndian(4, Xor(FromBigEndian(ip), COOKIE))
    else [reserved, 1] + BigEndian(2, port) + ip
  }

  function AddressAttribute(xored: bool, reserved: byte, ip: Bytes, port: nat): Attribute
    requires |ip| == 4
  {
    Attribute(if xored then XOR_MAPPED_ADDRESS else MAPPED_ADDRESS, AddressValue(xored, reserved, ip, port), [])
  }

  /** A binding success response. */
  function Response(tx: Bytes, body: Bytes): Bytes {
    Header(BINDING_RESPONSE, |body|, tx) + body
  }

  // ------------------------------------------------------------------------------------------
  // The address arrives
  // ------------------------------------------------------------------------------------------

  /** Both encodings of an address read back, the exclusive or undone. */
  lemma AddressReads(xored: bool, reserved: byte, ip: Bytes, port: nat, cookie: Bytes)
    requires |ip| == 4 && port < 0x1_0000 && |cookie| == 4 && FromBigEndian(cookie) == COOKIE
    ensures var value := AddressValue(xored, reserved, ip, port);
            |value| == 8 &&
            (if xored then ParseXorMappedAddress(value, cookie) else ParseMappedAddress(value)) == Address(ip, port)
  {
    var value := AddressValue(xored, reserved, ip, port);
    assert value[1] == 1;
    if xored {
      var p, q := Xor(port, COOKIE / 0x1_0000), Xor(FromBigEndian(ip), COOKIE);
      hide Xor;
      assert value[2..4] == BigEndian(2, p) && value[4..8] == BigEndian(4, q);
      FromBigEndianBounds(ip);
      Pow2Widths();
      XorBelow(port, COOKIE / 0x1_0000, 16);
      XorBelow(FromBigEndian(ip), COOKIE, 32);
      BigEndianFits(p);
      BigEndianFits(q);
      XorTwice(port, COOKIE / 0x1_0000);
      XorTwice(FromBigEndian(ip), COOKIE);
      BytesRoundTrip(ip);
    } else {
      assert value[2..4] == BigEndian(2, port) && value[4..8] == ip;
      BigEndianFits(port);
    }
  }

  /** What the walk sees at an attribute. */
  lemma AttributeReads(data: Bytes, pos: nat, a: Attribute, rest: Bytes)
    requires WellFormed(a) && pos <= |data| && data[pos..] == EncodeAttribute(a) + rest
    ensures pos + 4 + |a.value| + |a.padding| <= |data|
    ensures FromBigEndian(data[pos..pos + 2]) == a.kind && FromBigEndian(data[pos + 2..pos + 4]) == |a.value|
    ensures data[pos + 4..pos + 4 + |a.value|] == a.value
    ensures data[pos + 4 + |a.value| + |a.padding|..] == rest
  {
    var tail := data[pos..];
    assert |tail| == 4 + |a.value| + |a.padding| + |rest|;
    assert data[pos..pos + 2] == tail[..2] == BigEndian(2, a.kind);
    assert data[pos + 2..pos + 4] == tail[2..4] == BigEndian(2, |a.value|);
    assert data[pos + 4..pos + 4 + |a.value|] == tail[4..4 + |a.value|] == a.value;
    assert data[pos + 4 + |a.value| + |a.padding|..] == tail[4 + |a.value| + |a.padding|..] == rest;
    BigEndianFits(a.kind);
    BigEndianFits(|a.value|);
  }

  /** Other attributes are stepped over, however many. */
  lemma {:induction false} WalkSkips(data: Bytes, pos: nat, end: nat, others: seq<Attribute>, rest: Bytes)
    requires 20 <= end <= |data| && pos <= |data|
    requires forall i :: 0 <= i < |others| ==> IsOther(others[i])
    requires data[pos..] == EncodeAttributes(others) + rest
    requires pos + |EncodeAttributes(others)| <= end
    ensures Walk(data, pos, end) == Walk(data, pos + |EncodeAttributes(others)|, end)
    decreases |others|
  {
    hide FromBigEndian, BigEndian;
    if others != [] {
      var a, tail := others[0], EncodeAttributes(others[1..]);
      assert |EncodeAttributes(others)| == 4 + |a.value| + |a.padding| + |tail|;
      hide EncodeAttribute;
      assert data[pos..] == EncodeAttribute(a) + (tail + rest);
      AttributeReads(data, pos, a, tail + rest);
      WalkSkips(data, pos + 4 + |a.value| + |a.padding|, end, others[1..], rest);
    }
  }

  /** The attribute walk: in every binding success response for this transaction, after any number of other
      attributes and before any further bytes of the message or behind it, the first address attribute is
      found and gives exactly the address and port that were put in. */
  lemma AddressArrives(tx: Bytes, others: seq<Attribute>, xored: bool, reserved: byte, ip: Bytes, port: nat,
                       after: Bytes, behind: Bytes)
    requires |tx| == 12 && |ip| == 4 && port < 0x1_0000
    requires forall i :: 0 <= i < |others| ==> IsOther(others[i])
    requires |EncodeAttributes(others)| + 12 + |after| < 0x1_0000
    ensures var body := EncodeAttributes(others) + EncodeAttribute(AddressAttribute(xored, reserved, ip, port)) + after;
            var data := Response(tx, body) + behind;
            && CheckHeader(data, tx) == None
            && Walk(data, 20, 20 + FromBigEndian(data[2..4])) == Address(ip, port)
  {
    hide FromBigEndian, Header, CheckHeader, EncodeAttributes, Walk;
    var addr := AddressAttribute(xored, reserved, ip, port);
    AddressAttributeFits(xored, reserved, ip, port);
    hide EncodeAttribute, AddressAttribute;
    var head, mid := EncodeAttributes(others), EncodeAttribute(addr);
    var body := head + mid + after;
    HeaderReads(tx, body, behind);
    var data := Response(tx, body) + behind;
    hide Response;
    var end, pos := 20 + |body|, 20 + |head|;
    assert data[20..] == head + (mid + (after + behind));
    WalkSkips(data, 20, end, others, mid + (after + behind));
    assert data[pos..] == data[20..][|head|..] == mid + (after + behind);
    WalkFinds(data, pos, end, xored, reserved, ip, port, after + behind);
  }

  lemma AddressAttributeFits(xored: bool, reserved: byte, ip: Bytes, port: nat)
    requires |ip| == 4
    ensures var a := AddressAttribute(xored, reserved, ip, port); WellFormed(a) && |EncodeAttribute(a)| == 12
  {
  }

  /** At the address attribute the walk ends with the address. */
  lemma WalkFinds(data: Bytes, pos: nat, end: nat, xored: bool, reserved: byte, ip: Bytes, port: nat, rest: Bytes)
    requires |ip| == 4 && port < 0x1_0000
    requires 20 <= pos && pos + 12 <= end <= |data| && FromBigEndian(data[4..8]) == COOKIE
    requires data[pos..] == EncodeAttribute(AddressAttribute(xored, reserved, ip, port)) + rest
    ensures Walk(data, pos, end) == Address(ip, port)
  {
    var addr := AddressAttribute(xored, reserved, ip, port);
    AddressAttributeFits(xored, reserved, ip, port);
    AttributeReads(data, pos, addr, rest);
    AddressReads(xored, reserved, ip, port, data[4..8]);
    hide FromBigEndian, BigEndian, Xor;
  }

  lemma HeaderReads(tx: Bytes, body: Bytes, behind: Bytes)
    requires |tx| == 12 && |body| < 0x1_0000
    ensures var data := Response(tx, body) + behind;
            && CheckHeader(data, tx) == None && FromBigEndian(data[4..8]) == COOKIE
            && FromBigEndian(data[2..4]) == |body| && data[20..] == body + behind
  {
    hide BigEndian, FromBigEndian;
    var data := Response(tx, body) + behind;
    assert data[0..2] == BigEndian(2, BINDING_RESPONSE);
    assert data[2..4] == BigEndian(2, |body|);
    assert data[4..8] == BigEndian(4, COOKIE);
    assert data[8..20] == tx;
    assert data[20..] == body + behind;
    BigEndianFits(BINDING_RESPONSE);
    BigEndianFits(|body|);
    BigEndianFits(COOKIE);
  }
}
