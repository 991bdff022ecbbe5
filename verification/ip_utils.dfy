/** electron/utils/ipUtils.js: octet writers, the text form of a route
  * distinguisher (section 4.2 of RFC 4364), the text of an IPv4 prefix
  * and the generation of consecutive IPv4 routes. */
module IpUtils {
  import opened Base
  import opened Bits

  // ---------------------------------------------------------------------
  // writeUInt16, writeUInt32
  // ---------------------------------------------------------------------

  /** writeUInt16: the two low octets of value, most significant first
    * (WriteUInt16Shifts ties this to `[(value >> 8) & 0xff, value & 0xff]`). */
  function WriteUInt16(value: int): (r: seq<byte>)
    ensures |r| == 2 && BE16(r, 0) == value % TWO_16
  {
    [(value / TWO_8) % TWO_8, value % TWO_8]
  }

  /** writeUInt32: the four low octets of value, most significant first. */
  function WriteUInt32(value: int): (r: seq<byte>)
    ensures |r| == 4 && BE32(r, 0) == value % TWO_32
  {
    WriteUInt32Value(value);
    [(value / TWO_24) % TWO_8, (value / TWO_16) % TWO_8, (value / TWO_8) % TWO_8, value % TWO_8]
  }

  lemma WriteUInt32Value(v: int)
    ensures (((v / TWO_24) % TWO_8 * TWO_8 + (v / TWO_16) % TWO_8) * TWO_8 + (v / TWO_8) % TWO_8) * TWO_8 + v % TWO_8
            == v % TWO_32
  {
    var a := v / TWO_16;
    assert v / TWO_24 == a / TWO_8;
    assert (a / TWO_8) % TWO_8 * TWO_8 + a % TWO_8 == a % TWO_16 by { assert BE16(WriteUInt16(a), 0) == a % TWO_16; }
    assert (v / TWO_8) % TWO_8 * TWO_8 + v % TWO_8 == v % TWO_16 by { assert BE16(WriteUInt16(v), 0) == v % TWO_16; }
    SplitMod32(v);
  }

  /** The low 32 bits are the low 16 bits of the upper half above the low 16 bits. */
  lemma SplitMod32(v: int)
    ensures ((v / TWO_16) % TWO_16) * TWO_16 + v % TWO_16 == v % TWO_32
  {
    var a, b := v / TWO_16, v % TWO_16;
    var c, d := a / TWO_16, a % TWO_16;
    assert v == c * TWO_32 + (d * TWO_16 + b);
    assert 0 <= d * TWO_16 + b < TWO_32;
  }

  /** writeUInt16 is the JavaScript expression of the source, octet by
    * octet. */
  lemma WriteUInt16Shifts(value: int)
    ensures WriteUInt16(value) == [JsAnd(JsShr(value, 8), 0xff), JsAnd(value, 0xff)]
  {
    var r := WriteUInt16(value);
    OctetShift(value, 8, TWO_8);
    LowOctet(value);
    assert r[0] == JsAnd(JsShr(value, 8), 0xff);
    assert r[1] == JsAnd(value, 0xff);
  }

  /** writeUInt32 likewise. */
  lemma WriteUInt32Shifts(value: int)
    ensures WriteUInt32(value) == [JsAnd(JsShr(value, 24), 0xff), JsAnd(JsShr(value, 16), 0xff),
                                   JsAnd(JsShr(value, 8), 0xff), JsAnd(value, 0xff)]
  {
    var r := WriteUInt32(value);
    OctetShift(value, 24, TWO_24);
    OctetShift(value, 16, TWO_16);
    OctetShift(value, 8, TWO_8);
    LowOctet(value);
    assert r[0] == JsAnd(JsShr(value, 24), 0xff);
    assert r[1] == JsAnd(JsShr(value, 16), 0xff);
    assert r[2] == JsAnd(JsShr(value, 8), 0xff);
    assert r[3] == JsAnd(value, 0xff);
  }

  /** `(value >> s) & 0xff` with d = 2^s. */
  lemma OctetShift(value: int, s: nat, d: int)
    requires (s == 8 && d == TWO_8) || (s == 16 && d == TWO_16) || (s == 24 && d == TWO_24)
    ensures JsAnd(JsShr(value, s), 0xff) == (value / d) % TWO_8
  {
    Pow2Values();
    ShiftMaskOctet(value, s);
  }

  /** `value & 0xff` */
  lemma LowOctet(value: int)
    ensures JsAnd(value, 0xff) == value % TWO_8
  {
    ShiftMaskOctet(value, 0);
    assert Pattern(JsShr(value, 0)) == Pattern(value);
    assert JsAnd(JsShr(value, 0), 0xff) == JsAnd(value, 0xff);
  }

  // ---------------------------------------------------------------------
  // rdBufferToString
  // ---------------------------------------------------------------------

  /** A route distinguisher by its type field. */
  datatype RouteDistinguisher =
    | AsTwoOctet(admin: int, number: int)         // type 0
    | Ipv4Admin(address: seq<byte>, number: int)  // type 1
    | AsFourOctet(admin: int, number: int)        // type 2
    | OtherType(rdType: int, rest: seq<byte>)

  predicate WellFormed(rd: RouteDistinguisher)
  {
    match rd
    case AsTwoOctet(a, n) => 0 <= a < TWO_16 && 0 <= n < TWO_32
    case Ipv4Admin(ip, n) => |ip| == 4 && 0 <= n < TWO_16
    case AsFourOctet(a, n) => 0 <= a < TWO_32 && 0 <= n < TWO_16
    case OtherType(t, rest) => 3 <= t < TWO_16 && |rest| == 6
  }

  /** The eight octets of a route distinguisher: a two-octet type, then
    * the administrator and assigned-number fields of that type. */
  function EncodeRd(rd: RouteDistinguisher): (r: seq<byte>)
    requires WellFormed(rd)
    ensures |r| == 8
  {
    match rd
    case AsTwoOctet(a, n) => WriteUInt16(0) + WriteUInt16(a) + WriteUInt32(n)
    case Ipv4Admin(ip, n) => WriteUInt16(1) + ip + WriteUInt16(n)
    case AsFourOctet(a, n) => WriteUInt16(2) + WriteUInt32(a) + WriteUInt16(n)
    case OtherType(t, rest) => WriteUInt16(t) + rest
  }

  /** The fields of eight octets, by the type in the first two. */
  function DecodeRd(b: seq<byte>): (rd: RouteDistinguisher)
    requires |b| == 8
    ensures WellFormed(rd)
  {
    var t := BE16(b, 0);
    if t == 0 then AsTwoOctet(BE16(b, 2), BE32(b, 4))
    else if t == 1 then Ipv4Admin(b[2..6], BE16(b, 6))
    else if t == 2 then AsFourOctet(BE32(b, 2), BE16(b, 6))
    else OtherType(t, b[2..])
  }

  /** How a route distinguisher is shown: "administrator:assigned", with
    * an IPv4 administrator in dotted form; other types as "unknown(t)". */
  function RdText(rd: RouteDistinguisher): string
    requires WellFormed(rd)
  {
    match rd
    case AsTwoOctet(a, n) => Decimal(a) + ":" + Decimal(n)
    case Ipv4Admin(ip, n) => DottedDecimal(ip) + ":" + Decimal(n)
    case AsFourOctet(a, n) => Decimal(a) + ":" + Decimal(n)
    case OtherType(t, _) => "unknown(" + Decimal(t) + ")"
  }

  /** rdBufferToString: throws unless given exactly eight octets. */
  function RdBufferToString(buffer: seq<byte>): (r: Outcome<string>)
    ensures r.Returned? <==> |buffer| == 8
  {
    if |buffer| != 8 then Threw
    else
      var rdType := BE16(buffer, 0);
      if rdType == 0 then Returned(Decimal(BE16(buffer, 2)) + ":" + Decimal(BE32(buffer, 4)))
      else if rdType == 1 then Returned(DottedDecimal(buffer[2..6]) + ":" + Decimal(BE16(buffer, 6)))
      else if rdType == 2 then Returned(Decimal(BE32(buffer, 2)) + ":" + Decimal(BE16(buffer, 6)))
      else Returned("unknown(" + Decimal(rdType) + ")")
  }

  /** The text of an encoded route distinguisher is its display form. */
  lemma RdRoundTrip(rd: RouteDistinguisher)
    requires WellFormed(rd)
    ensures RdBufferToString(EncodeRd(rd)) == Returned(RdText(rd))
  {
    RdEncodeDecode(rd);
    RdBufferText(EncodeRd(rd));
  }

  /** The fields read back from an encoding are the fields encoded. */
  lemma RdEncodeDecode(rd: RouteDistinguisher)
    requires WellFormed(rd)
    ensures DecodeRd(EncodeRd(rd)) == rd
  {
    match rd
    case AsTwoOctet(a, n) => AsTwoOctetFields(a, n);
    case Ipv4Admin(ip, n) => Ipv4AdminFields(ip, n);
    case AsFourOctet(a, n) => AsFourOctetFields(a, n);
    case OtherType(t, rest) =>
      var b, w := EncodeRd(rd), WriteUInt16(t);
      assert b[0] == w[0] && b[1] == w[1] && b[2..] == rest;
  }

  lemma AsTwoOctetFields(a: int, n: int)
    requires 0 <= a < TWO_16 && 0 <= n < TWO_32
    ensures var b := WriteUInt16(0) + WriteUInt16(a) + WriteUInt32(n);
            BE16(b, 0) == 0 && BE16(b, 2) == a && BE32(b, 4) == n
  {
    var t, x, y := WriteUInt16(0), WriteUInt16(a), WriteUInt32(n);
    var b := t + x + y;
    assert b[0..2] == t && b[2..4] == x && b[4..8] == y;
    ReadsWritten16(b, 0, 0);
    ReadsWritten16(b, 2, a);
    ReadsWritten32(b, 4, n);
  }

  lemma Ipv4AdminFields(ip: seq<byte>, n: int)
    requires |ip| == 4 && 0 <= n < TWO_16
    ensures var b := WriteUInt16(1) + ip + WriteUInt16(n);
            BE16(b, 0) == 1 && b[2..6] == ip && BE16(b, 6) == n
  {
    var t, y := WriteUInt16(1), WriteUInt16(n);
    var b := t + ip + y;
    assert b[0] == t[0] && b[1] == t[1];
    assert b[6] == y[0] && b[7] == y[1];
  }

  lemma AsFourOctetFields(a: int, n: int)
    requires 0 <= a < TWO_32 && 0 <= n < TWO_16
    ensures var b := WriteUInt16(2) + WriteUInt32(a) + WriteUInt16(n);
            BE16(b, 0) == 2 && BE32(b, 2) == a && BE16(b, 6) == n
  {
    var t, x, y := WriteUInt16(2), WriteUInt32(a), WriteUInt16(n);
    var b := t + x + y;
    assert b[0..2] == t && b[2..6] == x && b[6..8] == y;
    ReadsWritten16(b, 0, 2);
    ReadsWritten32(b, 2, a);
    ReadsWritten16(b, 6, n);
  }

  /** A 16-bit value written at i reads back at i. */
  lemma ReadsWritten16(b: seq<byte>, i: nat, v: int)
    requires 0 <= v < TWO_16 && i + 2 <= |b| && b[i..i + 2] == WriteUInt16(v)
    ensures BE16(b, i) == v
  {
    var x := WriteUInt16(v);
    assert b[i] == x[0] && b[i + 1] == x[1];
  }

  /** A 32-bit value written at i reads back at i. */
  lemma ReadsWritten32(b: seq<byte>, i: nat, v: int)
    requires 0 <= v < TWO_32 && i + 4 <= |b| && b[i..i + 4] == WriteUInt32(v)
    ensures BE32(b, i) == v
  {
    var x := WriteUInt32(v);
    assert b[i] == x[0] && b[i + 1] == x[1] && b[i + 2] == x[2] && b[i + 3] == x[3];
    assert BE32(b, i) == BE32(x, 0);
  }

  /** rdBufferToString shows the fields read from eight octets. */
  lemma RdBufferText(b: seq<byte>)
    requires |b| == 8
    ensures RdBufferToString(b) == Returned(RdText(DecodeRd(b)))
  {
  }

  /** Every eight octets are the encoding of the fields read from them. */
  lemma RdDecodeEncode(b: seq<byte>)
    requires |b| == 8
    ensures EncodeRd(DecodeRd(b)) == b
  {
    WriterOfBE16(b, 0);
    var t := BE16(b, 0);
    if t == 0 {
      WriterOfBE16(b, 2);
      WriterOfBE32(b, 4);
      assert b == b[0..2] + b[2..4] + b[4..8];
    } else if t == 1 {
      WriterOfBE16(b, 6);
      assert b == b[0..2] + b[2..6] + b[6..8];
    } else if t == 2 {
      WriterOfBE32(b, 2);
      WriterOfBE16(b, 6);
      assert b == b[0..2] + b[2..6] + b[6..8];
    } else {
      assert b == b[0..2] + b[2..];
    }
  }

  lemma WriterOfBE16(b: seq<byte>, i: int)
    requires 0 <= i && i + 2 <= |b|
    ensures WriteUInt16(BE16(b, i)) == b[i..i + 2]
  {
    var v := BE16(b, i);
    DivUnique(v, TWO_8, b[i], b[i + 1]);
    DivUnique(b[i], TWO_8, 0, b[i]);
    DivUnique(v, TWO_16, 0, v);
  }

  lemma WriterOfBE32(b: seq<byte>, i: int)
    requires 0 <= i && i + 4 <= |b|
    ensures WriteUInt32(BE32(b, i)) == b[i..i + 4]
  {
    var v := BE32(b, i);
    var hi, lo := BE16(b, i), BE16(b, i + 2);
    assert v == TWO_16 * hi + lo;
    DivUnique(v, TWO_24, b[i], TWO_16 * b[i + 1] + lo);
    DivUnique(v, TWO_16, hi, lo);
    DivUnique(hi, TWO_8, b[i], b[i + 1]);
    DivUnique(v, TWO_8, TWO_8 * hi + b[i + 2], b[i + 3]);
    DivUnique(TWO_8 * hi + b[i + 2], TWO_8, hi, b[i + 2]);
    DivUnique(b[i], TWO_8, 0, b[i]);
  }

  // ---------------------------------------------------------------------
  // ipv4BufferToString
  // ---------------------------------------------------------------------

  /** The octet b with only its n high bits kept (0 < n < 8): b rounded
    * down to a multiple of 2^(8 - n). */
  function KeepHigh(b: byte, n: int): (r: byte)
    requires 0 < n < 8
    ensures r <= b && b - r < Pow2(8 - n) && r % Pow2(8 - n) == 0
  {
    AboveTimes(b, 8 - n);
    Above(b, 8 - n) * Pow2(8 - n)
  }

  /** The four octets ipv4BufferToString prints for a prefix of `length`
    * bits stored in `buffer`: the octets present, zero after them, with
    * the octet that holds the end of the prefix cut to its prefix bits. */
  function PrefixOctets(buffer: seq<byte>, length: nat): (r: seq<byte>)
    ensures |r| == 4
  {
    seq(4, k requires 0 <= k < 4 =>
      if k >= |buffer| then 0
      else if k == length / 8 && length % 8 > 0 then KeepHigh(buffer[k], length % 8)
      else buffer[k])
  }

  /** In the octet that holds the end of the prefix, exactly the bits
    * inside the prefix survive. */
  lemma PrefixOctetBits(buffer: seq<byte>, length: nat, i: nat)
    requires length % 8 > 0 && length / 8 < 4 && length / 8 < |buffer| && i < 8
    ensures var k := length / 8;
            Bit(PrefixOctets(buffer, length)[k], i) == (Bit(buffer[k], i) && i >= 8 - length % 8)
  {
    KeepHighBit(buffer[length / 8], length % 8, i);
  }

  lemma KeepHighBit(b: byte, n: int, i: nat)
    requires 0 < n < 8 && i < 8
    ensures Bit(KeepHigh(b, n), i) == (Bit(b, i) && i >= 8 - n)
  {
    var k := 8 - n;
    BitMul(Above(b, k), k, i);
    if i >= k {
      BitDiv(b, k, i - k);
    }
  }

  /** The mask `0xff & (0xff << (8 - n))` has exactly bits 8 - n to 7. */
  lemma MaskBits(n: int)
    requires 0 < n < 8
    ensures var m := JsAnd(0xff, JsShl(0xff, 8 - n));
            0 <= m < TWO_8 && forall i :: 0 <= i < 8 ==> Bit(m, i) == (i >= 8 - n)
  {
    var k := 8 - n;
    var p := 0xff * Pow2(k);
    OctetShl(k);
    var m := And(0xff, p);
    AndBound(0xff, p);
    SmallValue(0xff);
    SmallValue(m);
    assert JsAnd(0xff, JsShl(0xff, k)) == m;
    forall i | 0 <= i < 8
      ensures Bit(m, i) == (i >= k)
    {
      AndBit(0xff, p, i);
      BitMul(0xff, k, i);
      LowOnes(i);
      if i >= k {
        LowOnes(i - k);
      }
    }
  }

  /** `0xff << k` for k < 8 does not reach the sign bit. */
  lemma OctetShl(k: nat)
    requires k < 8
    ensures Pattern(JsShl(0xff, k)) == 0xff * Pow2(k)
  {
    Pow2Values();
    Pow2Monotone(k, 7);
    SmallValue(0xff);
    assert 0 <= 0xff * Pow2(k) <= 0xff * 128;
  }

  /** The eight low bits of 0xff are set. */
  lemma LowOnes(i: nat)
    requires i < 8
    ensures Bit(0xff, i)
  {
    Pow2Values();
    ComplementBit(0, 8, i);
  }

  /** `ipBuffer[fullBytes] &= mask` keeps the n high bits of the octet. */
  lemma MaskKeepsHigh(b: byte, n: int)
    requires 0 < n < 8
    ensures JsAnd(b, JsAnd(0xff, JsShl(0xff, 8 - n))) == KeepHigh(b, n)
  {
    MaskBits(n);
    var m := JsAnd(0xff, JsShl(0xff, 8 - n));
    var c := And(b, m);
    AndBound(b, m);
    SmallValue(b);
    SmallValue(m);
    SmallValue(c);
    assert JsAnd(b, m) == c;
    forall i | 0 <= i < 8
      ensures Bit(c, i) == Bit(KeepHigh(b, n), i)
    {
      AndBit(b, m, i);
      KeepHighBit(b, n, i);
    }
    Pow2Values();
    BitsEqual(c, KeepHigh(b, n), 8);
  }

  /** ipv4BufferToString: the octets copied into a zeroed four-octet
    * buffer, the partial octet masked, then joined with '.'. */
  method Ipv4BufferToString(buffer: seq<byte>, length: nat) returns (text: string)
    ensures text == DottedDecimal(PrefixOctets(buffer, length))
  {
    var ipBuffer := new byte[4](_ => 0);
    CopyOctets(buffer, ipBuffer);
    MaskPartialOctet(buffer, length, ipBuffer);
    text := DottedDecimal(ipBuffer[..]);
  }

  /** `buffer.copy(ipBuffer, 0, 0, Math.min(buffer.length, 4))` into the
    * zeroed buffer. */
  method CopyOctets(buffer: seq<byte>, ipBuffer: array<byte>)
    requires ipBuffer.Length == 4 && forall j :: 0 <= j < 4 ==> ipBuffer[j] == 0
    modifies ipBuffer
    ensures forall j :: 0 <= j < 4 ==> ipBuffer[j] == (if j < |buffer| then buffer[j] else 0)
  {
    var count := if |buffer| < 4 then |buffer| else 4;
    for k := 0 to count
      invariant forall j :: 0 <= j < 4 ==> ipBuffer[j] == (if j < k then buffer[j] else 0)
    {
      ipBuffer[k] := buffer[k];
    }
  }

  /** The octet that holds the end of the prefix, when there is one, keeps
    * only its prefix bits. */
  method MaskPartialOctet(buffer: seq<byte>, length: nat, ipBuffer: array<byte>)
    requires ipBuffer.Length == 4
    requires forall j :: 0 <= j < 4 ==> ipBuffer[j] == (if j < |buffer| then buffer[j] else 0)
    modifies ipBuffer
    ensures ipBuffer[..] == PrefixOctets(buffer, length)
  {
    var fullBytes := length / 8;
    var remainingBits := length % 8;
    if remainingBits > 0 && fullBytes < 4 {
      var mask := JsAnd(0xff, JsShl(0xff, 8 - remainingBits));
      MaskKeepsHigh(ipBuffer[fullBytes], remainingBits);
      ipBuffer[fullBytes] := JsAnd(ipBuffer[fullBytes], mask);
    }
    assert forall j :: 0 <= j < 4 ==> ipBuffer[..][j] == PrefixOctets(buffer, length)[j];
  }

  // ---------------------------------------------------------------------
  // genRouteIps, IPv4
  // ---------------------------------------------------------------------

  datatype Route = Route(ip: string, mask: int)

  /** ipaddr's IPv4 networkAddressFromCIDR: the address with its host
    * bits, the 32 - mask low ones, cleared. */
  function NetworkAddress(octets: seq<byte>, mask: int): (r: seq<byte>)
    requires |octets| == 4 && 0 <= mask <= 32
    ensures |r| == 4
  {
    WriteUInt32(Above(BE32(octets, 0), 32 - mask) * Pow2(32 - mask))
  }

  /** The network of the i-th route: the base address advanced by i
    * blocks of 2^(32 - mask) addresses, modulo 2^32. */
  function RouteOctets(base: seq<byte>, mask: int, i: int): (r: seq<byte>)
    requires |base| == 4 && 0 <= mask <= 32
    ensures |r| == 4
  {
    NetworkAddress(WriteUInt32(BE32(base, 0) + i * Pow2(32 - mask)), mask)
  }

  /** `(b0 << 24) | (b1 << 16) | (b2 << 8) | b3` is the signed reading of
    * the four octets. */
  lemma BaseIntIsBE32(b: seq<byte>)
    requires |b| == 4
    ensures JsOr(JsOr(JsOr(JsShl(b[0], 24), JsShl(b[1], 16)), JsShl(b[2], 8)), b[3])
            == ToInt32(BE32(b, 0))
  {
    var b0, b1, b2, b3 := b[0], b[1], b[2], b[3];
    ShiftedOctet(b0, 24, TWO_24);
    ShiftedOctet(b1, 16, TWO_16);
    ShiftedOctet(b2, 8, TWO_8);
    SmallValue(b3);
    var x1 := JsOr(JsShl(b0, 24), JsShl(b1, 16));
    OrBelow(b0, b1 * TWO_16, 24, TWO_24);
    assert Pattern(x1) == b0 * TWO_24 + b1 * TWO_16;
    var x2 := JsOr(x1, JsShl(b2, 8));
    var q1 := b0 * TWO_8 + b1;
    assert q1 * TWO_16 == Pattern(x1);
    OrBelow(q1, b2 * TWO_8, 16, TWO_16);
    assert Pattern(x2) == b0 * TWO_24 + b1 * TWO_16 + b2 * TWO_8;
    var q2 := b0 * TWO_16 + b1 * TWO_8 + b2;
    assert q2 * TWO_8 == Pattern(x2);
    OrBelow(q2, b3, 8, TWO_8);
    assert Or(Pattern(x2), Pattern(b3)) == BE32(b, 0);
  }

  /** `b << s` for an octet b and s in 8, 16, 24 is b * 2^s. */
  lemma ShiftedOctet(b: byte, s: nat, d: int)
    requires (s == 8 && d == TWO_8) || (s == 16 && d == TWO_16) || (s == 24 && d == TWO_24)
    ensures Pattern(JsShl(b, s)) == b * d
  {
    Pow2Values();
    SmallValue(b);
    if s == 24 {
      ShiftedBelow(b, 24, TWO_24);
    } else if s == 16 {
      ShiftedBelow(b, 16, TWO_16);
    } else {
      ShiftedBelow(b, 8, TWO_8);
    }
  }

  lemma ShiftedBelow(b: byte, s: nat, d: int)
    requires s < 32 && d == Pow2(s) && Pattern(b) == b && 0 <= b * d < TWO_32
    ensures Pattern(JsShl(b, s)) == b * d
  {
    assert Pattern(JsShl(b, s)) == (b * d) % TWO_32;
  }

  /** Or-ing a multiple of d = 2^k with a number below d adds them. */
  lemma OrBelow(q: nat, b: nat, k: nat, d: nat)
    requires (k == 8 && d == TWO_8) || (k == 16 && d == TWO_16) || (k == 24 && d == TWO_24)
    requires b < d
    ensures Or(q * d, b) == q * d + b
  {
    Pow2Values();
    forall i | 0 <= i
      ensures !(Bit(q * d, i) && Bit(b, i))
    {
      BitMul(q, k, i);
      if i >= k {
        BitAbove(b, k, i);
      }
    }
    OrDisjoint(q * d, b);
  }

  /** The four octets written for x only depend on x modulo 2^32. */
  lemma WriterCongruent(x: int, y: int)
    requires (x - y) % TWO_32 == 0
    ensures WriteUInt32(x) == WriteUInt32(y)
  {
    var k := (x - y) / TWO_32;
    assert x == y + k * TWO_32;
    ShiftedWrap(y, 1, TWO_24, k);
    ShiftedWrap(y, TWO_8, TWO_16, k);
    ShiftedWrap(y, TWO_16, TWO_8, k);
    ShiftedWrap(y, TWO_24, 1, k);
  }

  /** The octets the loop body of genRouteIps extracts from
    * baseInt + i * 2^(32 - mask) are those of the unsigned base advanced by
    * i blocks, so they make route i. */
  lemma RouteAt(base: seq<byte>, baseInt: int, mask: int, i: int, c: int)
    requires |base| == 4 && baseInt == ToInt32(BE32(base, 0)) && 0 <= mask <= 32
    requires c == baseInt + i * Pow2(32 - mask)
    ensures NetworkAddress(WriteUInt32(c), mask) == RouteOctets(base, mask, i)
  {
    var x := BE32(base, 0) + i * Pow2(32 - mask);
    assert (c - x) % TWO_32 == 0 by {
      assert c - x == baseInt - BE32(base, 0);
    }
    WriterCongruent(c, x);
  }

  /** The first n routes genRouteIps makes from base and mask. */
  function RouteList(base: seq<byte>, mask: int, n: nat): (r: seq<Route>)
    requires |base| == 4 && 0 <= mask <= 32
    ensures |r| == n
  {
    if n == 0 then []
    else RouteList(base, mask, n - 1) + [Route(DottedDecimal(RouteOctets(base, mask, n - 1)), mask)]
  }

  /** Route i of the list is the network of base + i * 2^(32 - mask). */
  lemma {:induction false} RouteListAt(base: seq<byte>, mask: int, n: nat, i: nat)
    requires |base| == 4 && 0 <= mask <= 32 && i < n
    ensures RouteList(base, mask, n)[i] == Route(DottedDecimal(RouteOctets(base, mask, i)), mask)
  {
    if i < n - 1 {
      RouteListAt(base, mask, n - 1, i);
    }
  }

  lemma RouteListNext(base: seq<byte>, mask: int, n: nat, route: Route)
    requires |base| == 4 && 0 <= mask <= 32
    requires route == Route(DottedDecimal(RouteOctets(base, mask, n)), mask)
    ensures RouteList(base, mask, n + 1) == RouteList(base, mask, n) + [route]
  {
  }

  /** genRouteIps for IPv4, from the four octets of the starting address:
    * routeCnt routes, the i-th the network of base + i * 2^(32 - mask)
    * (RouteListAt). A mask outside 0..32 makes ipaddr throw at the first
    * route; a count of zero or less gives no route. */
  method GenRouteIps(baseBytes: seq<byte>, routeMask: int, routeCnt: int) returns (r: Outcome<seq<Route>>)
    requires |baseBytes| == 4
    ensures r.Threw? <==> routeCnt > 0 && !(0 <= routeMask <= 32)
    ensures r.Returned? && routeCnt > 0 ==> 0 <= routeMask <= 32 && r.value == RouteList(baseBytes, routeMask, routeCnt)
    ensures r.Returned? && routeCnt <= 0 ==> r.value == []
  {
    var baseInt := JsOr(JsOr(JsOr(JsShl(baseBytes[0], 24), JsShl(baseBytes[1], 16)), JsShl(baseBytes[2], 8)), baseBytes[3]);
    BaseIntIsBE32(baseBytes);
    // Math.pow(2, 32 - routeMask); a mask outside 0..32 never gets to use it
    var step := if 0 <= routeMask <= 32 then Pow2(32 - routeMask) else 0;
    var routes: seq<Route> := [];
    var i := 0;
    while i < routeCnt
      invariant 0 <= i && (i > 0 ==> 0 <= routeMask <= 32 && i <= routeCnt && routes == RouteList(baseBytes, routeMask, i))
      invariant i == 0 ==> routes == []
    {
      var currentInt := baseInt + i * step;
      // the octets `(currentInt >> 24) & 0xff` .. `currentInt & 0xff`, the
      // expression of writeUInt32 (WriteUInt32Shifts)
      var bytes := WriteUInt32(currentInt);
      if !(0 <= routeMask <= 32) {
        return Threw;
      }
      RouteAt(baseBytes, baseInt, routeMask, i, currentInt);
      var network := NetworkAddress(bytes, routeMask);
      var route := Route(DottedDecimal(network), routeMask);
      RouteListNext(baseBytes, routeMask, i, route);
      routes := routes + [route];
      i := i + 1;
    }
    return Returned(routes);
  }

  /** The octets written for a 32-bit value read back as that value. */
  lemma WriteUInt32Inverse(n: int)
    requires 0 <= n < TWO_32
    ensures BE32(WriteUInt32(n), 0) == n
  {
    assert n % TWO_32 == n;
  }

  /** Every generated route is a network address: its host bits are zero. */
  lemma RouteIsNetwork(base: seq<byte>, mask: int, i: int)
    requires |base| == 4 && 0 <= mask <= 32
    ensures BE32(RouteOctets(base, mask, i), 0) % Pow2(32 - mask) == 0
  {
    var k := 32 - mask;
    var v := BE32(WriteUInt32(BE32(base, 0) + i * Pow2(k)), 0);
    AboveTimes(v, k);
    var q := Above(v, k);
    var n := q * Pow2(k);
    assert 0 <= n <= v;
    WriteUInt32Inverse(n);
  }

  /** From a base aligned to the block size, without wrapping past
    * 255.255.255.255, route i is exactly i blocks above the base. */
  lemma RoutesStep(base: seq<byte>, mask: int, i: int)
    requires |base| == 4 && 0 <= mask <= 32
    requires BE32(base, 0) % Pow2(32 - mask) == 0
    requires 0 <= i && BE32(base, 0) + i * Pow2(32 - mask) < TWO_32
    ensures BE32(RouteOctets(base, mask, i), 0) == BE32(base, 0) + i * Pow2(32 - mask)
  {
    var k := 32 - mask;
    var h := Pow2(k);
    var a := BE32(base, 0);
    var v := a + i * h;
    AlignedStep(a, k, i);
    WriteUInt32Inverse(v);
    var w := WriteUInt32(v);
    assert BE32(w, 0) == v;
    assert Above(BE32(w, 0), k) * h == v;
    WriteUInt32Inverse(Above(BE32(w, 0), k) * h);
  }

  /** Rounding down to a multiple of 2^k keeps a multiple of 2^k advanced
    * by i blocks. */
  lemma AlignedStep(a: nat, k: nat, i: nat)
    requires a % Pow2(k) == 0
    ensures Above(a + i * Pow2(k), k) * Pow2(k) == a + i * Pow2(k)
  {
    var h := Pow2(k);
    var q := a / h;
    assert a == h * q;
    var v := a + i * h;
    assert v == h * (q + i) + 0;
    DivUnique(v, h, q + i, 0);
    assert (q + i) * h == h * (q + i);
  }
}
