/** electron/pktParser/arpPacketParser.js: the ARP packet of RFC 826 read
  * into a tree of named fields, with the names of hardware types,
  * protocol types and operations, and the text forms of addresses. */
module ArpPacketParser {
  import opened Base
  import opened CommonUtils
  import opened ValidationCommon

  /** A value read with readUInt16BE. */
  type u16 = x: int | 0 <= x < 0x1_0000

  const IPV4: u16 := 0x0800
  const IPV6: u16 := 0x86dd

  // ---------------------------------------------------------------------
  // Name lookups
  // ---------------------------------------------------------------------

  /** The fallback of every lookup: `Unknown (<text>)`. */
  function UnknownName(text: string): (name: string)
    ensures |name| == |text| + 10 && name[0] == 'U'
  {
    "Unknown (" + text + ")"
  }

  predicate KnownHardwareType(t: int)
  {
    t == 1 || t == 6 || t == 7 || t == 15 || t == 16 || t == 17 || t == 18 || t == 19 || t == 20
  }

  /** getHardwareTypeName: ATM2 (19) is printed as ATM, like type 16. */
  function HardwareTypeName(t: u16): (name: string)
    ensures !KnownHardwareType(t) <==> name == UnknownName(Decimal(t))
  {
    if t == 1 then "Ethernet"
    else if t == 6 then "IEEE 802"
    else if t == 7 then "ARCNET"
    else if t == 15 then "Frame Relay"
    else if t == 16 then "ATM"
    else if t == 17 then "HDLC"
    else if t == 18 then "Fibre Channel"
    else if t == 19 then "ATM"
    else if t == 20 then "Serial Line"
    else UnknownName(Decimal(t))
  }

  /** getProtocolTypeName: the fallback prints the type as four lower-case
    * hexadecimal digits. */
  function ProtocolTypeName(t: u16): (name: string)
    ensures t != IPV4 && t != IPV6 <==> name == UnknownName("0x" + Hex4(t))
  {
    if t == IPV4 then "IPv4"
    else if t == IPV6 then "IPv6"
    else UnknownName("0x" + Hex4(t))
  }

  predicate KnownOperation(op: int)
  {
    1 <= op <= 9
  }

  /** getOperationName: the ARP, RARP, DRARP and InARP operations 1 to 9. */
  function OperationName(op: u16): (name: string)
    ensures !KnownOperation(op) <==> name == UnknownName(Decimal(op))
  {
    if op == 1 then "ARP Request"
    else if op == 2 then "ARP Reply"
    else if op == 3 then "RARP Request"
    else if op == 4 then "RARP Reply"
    else if op == 5 then "DRARP Request"
    else if op == 6 then "DRARP Reply"
    else if op == 7 then "DRARP Error"
    else if op == 8 then "InARP Request"
    else if op == 9 then "InARP Reply"
    else UnknownName(Decimal(op))
  }

  /** The number in an unknown hardware type's or operation's name reads
    * back as the number looked up. */
  lemma UnknownNameReadsBack(t: nat)
    ensures var name := UnknownName(Decimal(t));
            name[..9] == "Unknown (" && name[|name| - 1] == ')' &&
            AllDigits(name[9..|name| - 1]) && DigitsValue(name[9..|name| - 1]) == t
  {
    var name := UnknownName(Decimal(t));
    assert name[9..|name| - 1] == Decimal(t);
    DecimalValue(t);
  }

  /** The digits in an unknown protocol type's name read back as the type. */
  lemma UnknownProtocolReadsBack(t: u16)
    ensures var name := UnknownName("0x" + Hex4(t));
            |name| == 16 && name[..11] == "Unknown (0x" && name[15] == ')' &&
            Hex4Value(name[11..15]) == t
  {
    var name := UnknownName("0x" + Hex4(t));
    assert name[11..15] == Hex4(t);
  }

  // ---------------------------------------------------------------------
  // Hexadecimal text
  // ---------------------------------------------------------------------

  /** The lower-case hexadecimal digit for 0..15, as toString(16) prints it. */
  function LowerHexDigit(d: int): (c: char)
    requires 0 <= d < 16
    ensures IsHexDigit(c) && HexValue(c) == d && !('A' <= c <= 'F')
  {
    if d < 10 then ('0' as int + d) as char else ('a' as int + d - 10) as char
  }

  /** The value of four hexadecimal digits. */
  function Hex4Value(s: string): int
    requires |s| == 4 && forall k :: 0 <= k < 4 ==> IsHexDigit(s[k])
  {
    HexValue(s[0]) * 0x1000 + HexValue(s[1]) * 0x100 + HexValue(s[2]) * 0x10 + HexValue(s[3])
  }

  /** `v.toString(16).padStart(4, '0')` for a 16-bit value: four lower-case
    * digits that read back as v. */
  function Hex4(v: u16): (s: string)
    ensures |s| == 4 && forall k :: 0 <= k < 4 ==> IsHexDigit(s[k]) && !('A' <= s[k] <= 'F')
    ensures Hex4Value(s) == v
  {
    NibblesCompose(v);
    [LowerHexDigit(v / 0x1000), LowerHexDigit(v / 0x100 % 16), LowerHexDigit(v / 16 % 16), LowerHexDigit(v % 16)]
  }

  /** A 16-bit value is the sum of its four hexadecimal digits' worth. */
  lemma NibblesCompose(v: u16)
    ensures v / 0x1000 * 0x1000 + v / 0x100 % 16 * 0x100 + v / 16 % 16 * 16 + v % 16 == v
  {
    var a := v / 16;
    var b := a / 16;
    var c := b / 16;
    assert v == a * 16 + v % 16;
    assert a == b * 16 + a % 16;
    assert b == c * 16 + b % 16;
    assert v / 0x100 == b;
    assert v / 0x1000 == c;
  }

  // ---------------------------------------------------------------------
  // Address text
  // ---------------------------------------------------------------------

  /** Each octet as two upper-case hexadecimal digits. */
  function OctetPairs(b: seq<byte>): (r: seq<string>)
    ensures |r| == |b|
    ensures forall k :: 0 <= k < |b| ==> r[k] == HexByteUpper(b[k])
  {
    seq(|b|, k requires 0 <= k < |b| => HexByteUpper(b[k]))
  }

  /** formatMacAddress: six octets as colon-separated upper-case pairs, any
    * other length as plain upper-case hexadecimal. */
  function FormatMacAddress(b: seq<byte>): string
  {
    if |b| != 6 then HexText(b) else Join(OctetPairs(b), ':')
  }

  /** Six octets print as six colon-separated pairs that read back as the
    * octets; any other length prints as hexadecimal text that
    * hexStringToBuffer turns back into the octets. */
  lemma MacAddressRoundTrip(b: seq<byte>)
    ensures |b| == 6 ==>
      var parts := Split(FormatMacAddress(b), ':');
      |parts| == 6 &&
      forall k :: 0 <= k < 6 ==>
        |parts[k]| == 2 && IsHexDigit(parts[k][0]) && IsHexDigit(parts[k][1]) &&
        HexValue(parts[k][0]) * 16 + HexValue(parts[k][1]) == b[k]
    ensures |b| != 6 ==> FormatMacAddress(b) == HexText(b) && HexStringToBuffer(FormatMacAddress(b)) == b
  {
    if |b| == 6 {
      var pairs := OctetPairs(b);
      forall k | 0 <= k < 6
        ensures ':' !in pairs[k]
      {
        assert IsHexDigit(pairs[k][0]) && IsHexDigit(pairs[k][1]);
      }
      JoinSplit(pairs, ':');
      assert Split(FormatMacAddress(b), ':') == pairs;
    } else {
      HexRoundTrip(b);
    }
  }

  /** formatIPv4Address: four octets in dotted decimal, any other length as
    * upper-case hexadecimal. */
  function FormatIPv4Address(b: seq<byte>): string
  {
    if |b| != 4 then HexText(b) else DottedDecimal(b)
  }

  /** Four octets print as an address that isValidIpv4 accepts and whose
    * dot-separated numbers are the octets. */
  lemma Ipv4AddressRoundTrip(b: seq<byte>)
    requires |b| == 4
    ensures IsValidIpv4(FormatIPv4Address(b))
    ensures var parts := Split(FormatIPv4Address(b), '.');
            |parts| == 4 && forall k :: 0 <= k < 4 ==> AllDigits(parts[k]) && DigitsValue(parts[k]) == b[k]
  {
    DottedIsValid(b);
    DottedIsJoin(b);
    var texts := OctetTexts(b);
    forall k | 0 <= k < 4
      ensures '.' !in texts[k] && DigitsValue(texts[k]) == b[k]
    {
      DecimalValue(b[k]);
      assert AllDigits(texts[k]);
    }
    JoinSplit(texts, '.');
  }

  /** The eight groups of an IPv6 address, each a 16-bit value in four
    * lower-case hexadecimal digits. */
  function Ipv6Groups(b: seq<byte>): (r: seq<string>)
    requires |b| == 16
    ensures |r| == 8 && forall i :: 0 <= i < 8 ==> r[i] == Hex4(BE16(b, 2 * i))
  {
    seq(8, i requires 0 <= i < 8 => Hex4(BE16(b, 2 * i)))
  }

  /** formatProtocolAddress; protocolLength is the length of the buffer at
    * both of its calls, so it is not a separate parameter. */
  function FormatProtocolAddress(b: seq<byte>, protocolType: u16): string
  {
    if protocolType == IPV4 && |b| == 4 then FormatIPv4Address(b)
    else if protocolType == IPV6 && |b| == 16 then Join(Ipv6Groups(b), ':')
    else HexText(b)
  }

  /** An IPv6 address prints as eight colon-separated groups, each reading
    * back as the two octets it came from. */
  lemma Ipv6AddressRoundTrip(b: seq<byte>)
    requires |b| == 16
    ensures var parts := Split(FormatProtocolAddress(b, IPV6), ':');
            |parts| == 8 && forall i :: 0 <= i < 8 ==>
              |parts[i]| == 4 && (forall k :: 0 <= k < 4 ==> IsHexDigit(parts[i][k])) &&
              Hex4Value(parts[i]) == (b[2 * i] as int) * 256 + b[2 * i + 1]
  {
    var groups := Ipv6Groups(b);
    forall i | 0 <= i < 8
      ensures ':' !in groups[i]
    {
      assert forall k :: 0 <= k < 4 ==> IsHexDigit(groups[i][k]);
    }
    JoinSplit(groups, ':');
  }

  /** A protocol address that is neither a four-octet IPv4 address nor a
    * sixteen-octet IPv6 address prints as hexadecimal text that converts
    * back into the octets. */
  lemma OtherProtocolAddress(b: seq<byte>, protocolType: u16)
    requires !(protocolType == IPV4 && |b| == 4) && !(protocolType == IPV6 && |b| == 16)
    ensures FormatProtocolAddress(b, protocolType) == HexText(b)
    ensures HexStringToBuffer(FormatProtocolAddress(b, protocolType)) == b
  {
    HexRoundTrip(b);
  }

  // ---------------------------------------------------------------------
  // parseArpPacket
  // ---------------------------------------------------------------------

  /** A node of the parse tree. The payload node's `type` and `nextLayer`
    * are always null and are not kept. */
  datatype Node = Node(name: string, offset: int, length: int, value: Shown, children: seq<Node>)

  /** A node's value, kept as the field it shows; Text gives the string
    * the parser stores. */
  datatype Shown =
    | NoText                                             // the header's empty value
    | HardwareTypeText(hardwareType: u16)                // number and name
    | ProtocolTypeText(protocolType: u16)                // 0x, four hex digits and name
    | LengthText(octets: byte)                           // number of octets and " bytes"
    | OperationText(operation: u16)                      // number and name
    | HardwareAddressText(address: seq<byte>)            // formatMacAddress
    | ProtocolAddressText(address: seq<byte>, protocolType: u16)  // formatProtocolAddress
    | DataText(data: seq<byte>)                          // the rest of the buffer in hex

  function Text(v: Shown): string
  {
    match v
    case NoText => ""
    case HardwareTypeText(t) => Described(t, HardwareTypeName(t))
    case ProtocolTypeText(t) => "0x" + Hex4(t) + " (" + ProtocolTypeName(t) + ")"
    case LengthText(n) => Decimal(n) + " bytes"
    case OperationText(op) => Described(op, OperationName(op))
    case HardwareAddressText(b) => FormatMacAddress(b)
    case ProtocolAddressText(b, protocolType) => FormatProtocolAddress(b, protocolType)
    case DataText(b) => HexText(b)
  }

  datatype ArpError =
    | HeaderTooShort                            // buffer shorter than offset + 8
    | PacketTooShort(expected: int, got: int)   // shorter than the address fields need
    | ReadOutOfRange                            // a read outside the buffer

  datatype ArpResult = Valid(payload: Option<Node>) | Invalid(error: ArpError)

  const FIELD_NAMES: seq<string> := [
    "Hardware Type", "Protocol Type", "Hardware Address Length", "Protocol Address Length",
    "Operation", "Sender Hardware Address", "Sender Protocol Address",
    "Target Hardware Address", "Target Protocol Address"]

  /** The eight fixed octets and the four addresses. */
  function TotalLength(hardwareLength: byte, protocolLength: byte): int
  {
    8 + (hardwareLength as int) * 2 + (protocolLength as int) * 2
  }

  predicate HeaderFits(buffer: seq<byte>, offset: int)
  {
    0 <= offset && offset + 8 <= |buffer|
  }

  /** The whole packet, as its length octets describe it, is in the buffer. */
  predicate Accepts(buffer: seq<byte>, offset: int)
  {
    HeaderFits(buffer, offset) && offset + TotalLength(buffer[offset + 4], buffer[offset + 5]) <= |buffer|
  }

  /** Each node starts where the one before it ends: the first at start,
    * the last ending at end. */
  predicate Adjacent(nodes: seq<Node>, start: int, end: int)
  {
    |nodes| > 0 && nodes[0].offset == start &&
    (forall k :: 0 <= k < |nodes| ==> nodes[k].length >= 0) &&
    (forall k :: 0 <= k < |nodes| - 1 ==> nodes[k].offset + nodes[k].length == nodes[k + 1].offset) &&
    nodes[|nodes| - 1].offset + nodes[|nodes| - 1].length == end
  }

  predicate Named(nodes: seq<Node>)
  {
    |nodes| <= |FIELD_NAMES| && forall k :: 0 <= k < |nodes| ==> nodes[k].name == FIELD_NAMES[k] && nodes[k].children == []
  }

  /** `<number> (<name>)` */
  function Described(n: u16, name: string): string
  {
    Decimal(n) + " (" + name + ")"
  }

  /** The four fixed fields before the operation: the two types, shown with
    * their names, and the two address lengths in octets. */
  predicate FixedFields(buffer: seq<byte>, offset: int, nodes: seq<Node>)
    requires HeaderFits(buffer, offset)
  {
    |nodes| >= 4 &&
    nodes[0].value == HardwareTypeText(BE16(buffer, offset)) &&
    nodes[1].value == ProtocolTypeText(BE16(buffer, offset + 2)) &&
    nodes[2].value == LengthText(buffer[offset + 4]) &&
    nodes[3].value == LengthText(buffer[offset + 5]) &&
    nodes[0].length == 2 && nodes[1].length == 2 && nodes[2].length == 1 && nodes[3].length == 1
  }

  /** The operation and the four addresses: sender hardware, sender
    * protocol, target hardware, target protocol, each shown in the text
    * form of its kind and read from its own span. */
  predicate AddressFields(buffer: seq<byte>, offset: int, nodes: seq<Node>)
    requires Accepts(buffer, offset)
  {
    |nodes| == 9 && AddressNodes(buffer, offset, nodes[4], nodes[5], nodes[6], nodes[7], nodes[8])
  }

  predicate AddressNodes(buffer: seq<byte>, offset: int, operation: Node, senderHardware: Node,
                         senderProtocol: Node, targetHardware: Node, targetProtocol: Node)
    requires Accepts(buffer, offset)
  {
    var h: int := buffer[offset + 4];
    var p: int := buffer[offset + 5];
    var protocolType := BE16(buffer, offset + 2);
    operation.length == 2 &&
    operation.value == OperationText(BE16(buffer, offset + 6)) &&
    AddressPair(buffer, offset + 8, h, p, protocolType, senderHardware, senderProtocol) &&
    AddressPair(buffer, offset + 8 + h + p, h, p, protocolType, targetHardware, targetProtocol)
  }

  /** A hardware address of h octets at position at, followed by a protocol
    * address of p octets, each shown in the text form of its kind. */
  predicate AddressPair(buffer: seq<byte>, at: int, h: int, p: int, protocolType: u16, hardware: Node, protocol: Node)
    requires 0 <= at && 0 <= h && 0 <= p && at + h + p <= |buffer|
  {
    hardware.length == h && hardware.value == HardwareAddressText(buffer[at..at + h]) &&
    protocol.length == p && protocol.value == ProtocolAddressText(buffer[at + h..at + h + p], protocolType)
  }

  /** parseArpPacket. `pushed` is the header node the parser appends to the
    * tree's children, in the state it is left in; the parser fills it in
    * after pushing it, so a failure after the push leaves it partly filled. */
  method ParseArpPacket(buffer: seq<byte>, offset: int) returns (result: ArpResult, pushed: Option<Node>)
    ensures result.Valid? <==> Accepts(buffer, offset)
    ensures |buffer| < offset + 8 ==> result == Invalid(HeaderTooShort) && pushed == None
    ensures |buffer| >= offset + 8 ==>
              pushed.Some? && pushed.value.name == "ARP Packet" && pushed.value.offset == offset &&
              pushed.value.value == NoText && Named(pushed.value.children)
    ensures |buffer| >= offset + 8 && offset < 0 ==>
              result == Invalid(ReadOutOfRange) && pushed.value.children == [] && pushed.value.length == 0
    ensures HeaderFits(buffer, offset) && !Accepts(buffer, offset) ==>
              var total := TotalLength(buffer[offset + 4], buffer[offset + 5]);
              result == Invalid(PacketTooShort(total, |buffer| - offset)) &&
              pushed.value.length == 0 && |pushed.value.children| == 4 &&
              Adjacent(pushed.value.children, offset, offset + 6) &&
              FixedFields(buffer, offset, pushed.value.children)
    ensures Accepts(buffer, offset) ==>
              pushed.value.length == TotalLength(buffer[offset + 4], buffer[offset + 5]) &&
              AllFields(buffer, offset, pushed.value.children) && PayloadOf(buffer, offset, result.payload)
  {
    if |buffer| < offset + 8 {
      return Invalid(HeaderTooShort), None;
    }
    var header := Node("ARP Packet", offset, 0, NoText, []);
    if offset < 0 {
      // readUInt16BE rejects a negative position with a RangeError.
      return Invalid(ReadOutOfRange), Some(header);
    }

    var fields, curOffset := ReadFixedFields(buffer, offset);
    var total := TotalLength(buffer[offset + 4], buffer[offset + 5]);
    if |buffer| < offset + total {
      return Invalid(PacketTooShort(total, |buffer| - offset)), Some(header.(children := fields));
    }
    var payload;
    fields, payload := ReadRest(buffer, offset, fields);
    return Valid(payload), Some(header.(length := total, children := fields));
  }

  /** Every field of an accepted packet, in order and end to end over the
    * packet, each with its value. */
  predicate AllFields(buffer: seq<byte>, offset: int, fields: seq<Node>)
    requires Accepts(buffer, offset)
  {
    Named(fields) && |fields| == 9 &&
    Adjacent(fields, offset, offset + TotalLength(buffer[offset + 4], buffer[offset + 5])) &&
    FixedFields(buffer, offset, fields) && AddressFields(buffer, offset, fields)
  }

  /** The octets after the packet, if any, as one "Additional Data" node. */
  predicate PayloadOf(buffer: seq<byte>, offset: int, payload: Option<Node>)
    requires Accepts(buffer, offset)
  {
    var end := offset + TotalLength(buffer[offset + 4], buffer[offset + 5]);
    (payload.Some? <==> end < |buffer|) &&
    (payload.Some? ==> payload.value == Node("Additional Data", end, |buffer| - end, DataText(buffer[end..]), []))
  }

  /** The operation, the four addresses and the payload of an accepted
    * packet, after the fixed fields. */
  method ReadRest(buffer: seq<byte>, offset: int, fixed: seq<Node>) returns (fields: seq<Node>, payload: Option<Node>)
    requires Accepts(buffer, offset)
    requires |fixed| == 4 && Named(fixed) && Adjacent(fixed, offset, offset + 6) && FixedFields(buffer, offset, fixed)
    ensures AllFields(buffer, offset, fields)
    ensures PayloadOf(buffer, offset, payload)
  {
    var h: int := buffer[offset + 4];
    var p: int := buffer[offset + 5];
    var operationNode, senderHardware, senderProtocol, targetHardware, targetProtocol, curOffset :=
      ReadAddressFields(buffer, offset, h, p, BE16(buffer, offset + 2));
    fields := fixed + [operationNode, senderHardware, senderProtocol, targetHardware, targetProtocol];
    RestFields(buffer, offset, h, p, fixed, operationNode, senderHardware, senderProtocol, targetHardware,
               targetProtocol, curOffset);

    payload := ReadPayload(buffer, offset, curOffset);
  }

  /** What follows the packet, from curOffset on. */
  method ReadPayload(buffer: seq<byte>, offset: int, curOffset: int) returns (payload: Option<Node>)
    requires Accepts(buffer, offset) && curOffset == offset + TotalLength(buffer[offset + 4], buffer[offset + 5])
    ensures PayloadOf(buffer, offset, payload)
  {
    payload := None;
    if |buffer| > curOffset {
      payload := Some(Node("Additional Data", curOffset, |buffer| - curOffset, DataText(buffer[curOffset..]), []));
    }
  }

  /** The hardware type, protocol type and the two address lengths. */
  method ReadFixedFields(buffer: seq<byte>, offset: int) returns (fields: seq<Node>, curOffset: int)
    requires HeaderFits(buffer, offset)
    ensures |fields| == 4 && Named(fields) && Adjacent(fields, offset, curOffset) && curOffset == offset + 6
    ensures FixedFields(buffer, offset, fields)
  {
    curOffset := offset;
    var hardwareType := BE16(buffer, curOffset);
    var hardwareTypeNode := Node("Hardware Type", curOffset, 2, HardwareTypeText(hardwareType), []);
    fields := [hardwareTypeNode];
    curOffset := curOffset + 2;

    var protocolType := BE16(buffer, curOffset);
    var protocolTypeNode := Node("Protocol Type", curOffset, 2, ProtocolTypeText(protocolType), []);
    fields := fields + [protocolTypeNode];
    curOffset := curOffset + 2;

    var hardwareLength := buffer[curOffset];
    var hardwareLengthNode := Node("Hardware Address Length", curOffset, 1, LengthText(hardwareLength), []);
    fields := fields + [hardwareLengthNode];
    curOffset := curOffset + 1;

    var protocolLength := buffer[curOffset];
    var protocolLengthNode := Node("Protocol Address Length", curOffset, 1, LengthText(protocolLength), []);
    fields := fields + [protocolLengthNode];
    curOffset := curOffset + 1;

    assert fields == [hardwareTypeNode, protocolTypeNode, hardwareLengthNode, protocolLengthNode];
  }

  /** The operation and the four addresses, once the buffer is known to
    * hold them, from position on. */
  method ReadAddressFields(buffer: seq<byte>, offset: int, h: int, p: int, protocolType: u16)
    returns (operationNode: Node, senderHardware: Node, senderProtocol: Node, targetHardware: Node,
             targetProtocol: Node, curOffset: int)
    requires 0 <= offset && 0 <= h && 0 <= p && offset + 8 + h + p + h + p <= |buffer|
    ensures curOffset == offset + 8 + h + p + h + p
    ensures InOrder([operationNode, senderHardware, senderProtocol, targetHardware, targetProtocol], 4, offset + 6, curOffset)
    ensures operationNode.length == 2
    ensures operationNode.value == OperationText(BE16(buffer, offset + 6))
    ensures AddressPair(buffer, offset + 8, h, p, protocolType, senderHardware, senderProtocol)
    ensures AddressPair(buffer, offset + 8 + h + p, h, p, protocolType, targetHardware, targetProtocol)
  {
    var operation := BE16(buffer, offset + 6);
    operationNode := Node("Operation", offset + 6, 2, OperationText(operation), []);
    var afterSender;
    senderHardware, senderProtocol, afterSender :=
      ReadAddressPair(buffer, offset + 8, h, p, protocolType, "Sender Hardware Address", "Sender Protocol Address");
    targetHardware, targetProtocol, curOffset :=
      ReadAddressPair(buffer, afterSender, h, p, protocolType, "Target Hardware Address", "Target Protocol Address");
    InOrderFive(operationNode, senderHardware, senderProtocol, targetHardware, targetProtocol, 4, offset + 6, curOffset);
  }

  /** A hardware address and the protocol address after it, as read for
    * the sender and again for the target. */
  method ReadAddressPair(buffer: seq<byte>, position: int, h: int, p: int, protocolType: u16,
                         hardwareName: string, protocolName: string)
    returns (hardwareNode: Node, protocolNode: Node, curOffset: int)
    requires 0 <= position && 0 <= h && 0 <= p && position + h + p <= |buffer|
    ensures hardwareNode.name == hardwareName && hardwareNode.offset == position && hardwareNode.children == []
    ensures protocolNode.name == protocolName && protocolNode.offset == position + h && protocolNode.children == []
    ensures curOffset == position + h + p
    ensures AddressPair(buffer, position, h, p, protocolType, hardwareNode, protocolNode)
  {
    var hardware := buffer[position..position + h];
    hardwareNode := Node(hardwareName, position, h, HardwareAddressText(hardware), []);
    curOffset := position + h;

    var protocol := buffer[position + h..position + h + p];
    protocolNode := Node(protocolName, curOffset, p, ProtocolAddressText(protocol, protocolType), []);
    curOffset := curOffset + p;
  }

  /** Nodes with the field names from position `first` on, end to end from
    * start to end. */
  predicate InOrder(nodes: seq<Node>, first: nat, start: int, end: int)
  {
    first + |nodes| <= |FIELD_NAMES| && Adjacent(nodes, start, end) &&
    forall k :: 0 <= k < |nodes| ==> nodes[k].name == FIELD_NAMES[first + k] && nodes[k].children == []
  }

  lemma InOrderFive(a: Node, b: Node, c: Node, d: Node, e: Node, first: nat, start: int, end: int)
    requires first + 5 <= |FIELD_NAMES|
    requires a.name == FIELD_NAMES[first] && b.name == FIELD_NAMES[first + 1] && c.name == FIELD_NAMES[first + 2]
    requires d.name == FIELD_NAMES[first + 3] && e.name == FIELD_NAMES[first + 4]
    requires a.children == [] && b.children == [] && c.children == [] && d.children == [] && e.children == []
    requires a.offset == start && b.offset == a.offset + a.length && c.offset == b.offset + b.length
    requires d.offset == c.offset + c.length && e.offset == d.offset + d.length && end == e.offset + e.length
    requires a.length >= 0 && b.length >= 0 && c.length >= 0 && d.length >= 0 && e.length >= 0
    ensures InOrder([a, b, c, d, e], first, start, end)
  {
    var nodes := [a, b, c, d, e];
    forall k | 0 <= k < 4
      ensures nodes[k].offset + nodes[k].length == nodes[k + 1].offset
    {
      if k == 0 {} else if k == 1 {} else if k == 2 {} else {}
    }
    forall k | 0 <= k < 5
      ensures nodes[k].name == FIELD_NAMES[first + k] && nodes[k].children == []
    {
      if k == 0 {} else if k == 1 {} else if k == 2 {} else if k == 3 {} else {}
    }
  }

  /** Two runs of nodes, the second starting where the first ends, are one
    * run. */
  lemma AdjacentConcat(a: seq<Node>, b: seq<Node>, start: int, mid: int, end: int)
    requires Adjacent(a, start, mid) && Adjacent(b, mid, end)
    ensures Adjacent(a + b, start, end)
  {
    var all := a + b;
    forall k | 0 <= k < |all| - 1
      ensures all[k].offset + all[k].length == all[k + 1].offset
    {
      if k + 1 < |a| {
        assert all[k] == a[k] && all[k + 1] == a[k + 1];
      } else if k + 1 == |a| {
        assert all[k] == a[|a| - 1] && all[k + 1] == b[0];
      } else {
        assert all[k] == b[k - |a|] && all[k + 1] == b[k + 1 - |a|];
      }
    }
  }

  /** The fixed fields followed by the five read after them make up the
    * whole packet. */
  lemma RestFields(buffer: seq<byte>, offset: int, h: int, p: int, fixed: seq<Node>, operation: Node,
                   senderHardware: Node, senderProtocol: Node, targetHardware: Node, targetProtocol: Node,
                   curOffset: int)
    requires Accepts(buffer, offset)
    requires h == buffer[offset + 4] as int && p == buffer[offset + 5] as int
    requires |fixed| == 4 && Named(fixed) && Adjacent(fixed, offset, offset + 6) && FixedFields(buffer, offset, fixed)
    requires curOffset == offset + 8 + h + p + h + p
    requires InOrder([operation, senderHardware, senderProtocol, targetHardware, targetProtocol], 4, offset + 6, curOffset)
    requires operation.length == 2
    requires operation.value == OperationText(BE16(buffer, offset + 6))
    requires AddressPair(buffer, offset + 8, h, p, BE16(buffer, offset + 2), senderHardware, senderProtocol)
    requires AddressPair(buffer, offset + 8 + h + p, h, p, BE16(buffer, offset + 2), targetHardware, targetProtocol)
    ensures AllFields(buffer, offset, fixed + [operation, senderHardware, senderProtocol, targetHardware, targetProtocol])
  {
    var added := [operation, senderHardware, senderProtocol, targetHardware, targetProtocol];
    AppendFields(fixed, added, offset, offset + 6, curOffset);
    AddressFieldsOf(buffer, offset, h, p, fixed, operation, senderHardware, senderProtocol, targetHardware, targetProtocol);
    FixedFieldsKept(buffer, offset, fixed, added);
  }

  /** Fields appended after the ones already read keep the names in order
    * and the fields end to end. */
  lemma AppendFields(fixed: seq<Node>, added: seq<Node>, start: int, mid: int, end: int)
    requires Named(fixed) && Adjacent(fixed, start, mid) && InOrder(added, |fixed|, mid, end)
    ensures Named(fixed + added) && Adjacent(fixed + added, start, end)
  {
    AdjacentConcat(fixed, added, start, mid, end);
  }

  lemma AddressFieldsOf(buffer: seq<byte>, offset: int, h: int, p: int, fixed: seq<Node>, operation: Node,
                        senderHardware: Node, senderProtocol: Node, targetHardware: Node, targetProtocol: Node)
    requires Accepts(buffer, offset) && |fixed| == 4
    requires h == buffer[offset + 4] as int && p == buffer[offset + 5] as int
    requires operation.length == 2
    requires operation.value == OperationText(BE16(buffer, offset + 6))
    requires AddressPair(buffer, offset + 8, h, p, BE16(buffer, offset + 2), senderHardware, senderProtocol)
    requires AddressPair(buffer, offset + 8 + h + p, h, p, BE16(buffer, offset + 2), targetHardware, targetProtocol)
    ensures AddressFields(buffer, offset, fixed + [operation, senderHardware, senderProtocol, targetHardware, targetProtocol])
  {
  }

  lemma FixedFieldsKept(buffer: seq<byte>, offset: int, fixed: seq<Node>, added: seq<Node>)
    requires HeaderFits(buffer, offset) && FixedFields(buffer, offset, fixed)
    ensures FixedFields(buffer, offset, fixed + added)
  {
    assert (fixed + added)[..4] == fixed[..4];
  }

  /** Nodes laid end to end stay inside the span they tile: each lies
    * between its start and its end. */
  lemma {:induction false} AdjacentWithin(nodes: seq<Node>, start: int, end: int)
    requires Adjacent(nodes, start, end)
    ensures forall k :: 0 <= k < |nodes| ==> start <= nodes[k].offset && nodes[k].offset + nodes[k].length <= end
    decreases |nodes|
  {
    if |nodes| > 1 {
      var rest := nodes[1..];
      assert Adjacent(rest, start + nodes[0].length, end) by {
        forall k | 0 <= k < |rest| - 1
          ensures rest[k].offset + rest[k].length == rest[k + 1].offset
        {
          assert rest[k] == nodes[k + 1] && rest[k + 1] == nodes[k + 2];
        }
      }
      AdjacentWithin(rest, start + nodes[0].length, end);
      forall k | 0 <= k < |nodes|
        ensures start <= nodes[k].offset && nodes[k].offset + nodes[k].length <= end
      {
        if k > 0 {
          assert nodes[k] == rest[k - 1];
        }
      }
    }
  }

  /** The header node of an accepted packet covers exactly its fields, and
    * the payload starts where the header ends: together they reach the end
    * of the buffer. */
  lemma AcceptedCoversBuffer(buffer: seq<byte>, offset: int, header: Node, payload: Option<Node>)
    requires Accepts(buffer, offset)
    requires header.offset == offset && header.length == TotalLength(buffer[offset + 4], buffer[offset + 5])
    requires Adjacent(header.children, offset, offset + header.length)
    requires var end := offset + header.length;
             (payload.Some? <==> end < |buffer|) &&
             (payload.Some? ==> payload.value.offset == end && payload.value.length == |buffer| - end)
    ensures forall k :: 0 <= k < |header.children| ==>
              header.offset <= header.children[k].offset &&
              header.children[k].offset + header.children[k].length <= |buffer|
    ensures payload.Some? ==> header.offset + header.length + payload.value.length == |buffer|
    ensures payload.None? ==> header.offset + header.length == |buffer|
  {
    AdjacentWithin(header.children, offset, offset + header.length);
  }
}
