/** The BER decoder the SNMP trap receiver uses (ITU-T X.690): a parser
  * object over a received buffer whose position each read advances.
  * Every read has a specification function from (buffer, position) to the
  * result and the new position; the methods of Parser are proved to
  * compute exactly that. A read past the end of the buffer throws in the
  * source; here that is the outcome Threw. */
module Asn1 {
  import opened Base
  import opened IpUtils

  // Tag numbers of X.690 section 8 and of RFC 2578 (SNMPv2 SMI)
  const TAG_INTEGER: byte := 0x02
  const TAG_OCTET_STRING: byte := 0x04
  const TAG_NULL: byte := 0x05
  const TAG_OBJECT_IDENTIFIER: byte := 0x06
  const TAG_SEQUENCE: byte := 0x30
  const TAG_IP_ADDRESS: byte := 0x40
  const TAG_COUNTER32: byte := 0x41
  const TAG_GAUGE32: byte := 0x42
  const TAG_TIME_TICKS: byte := 0x43
  const TAG_OPAQUE: byte := 0x44
  const TAG_COUNTER64: byte := 0x46

  /** What parseIpAddress answers for anything that is not an IpAddress. */
  const ZERO_ADDRESS: string := "0.0.0.0"

  /** The result of a read and the position it leaves behind. */
  datatype Parsed<T> = Parsed(out: Outcome<T>, pos: int)

  /** A decoded SNMP value (the type/value pair of parseValue). Octet
    * strings and opaque values are kept as their bytes. */
  datatype Value =
    | Integer(integer: Option<int>)
    | OctetString(bytes: Option<seq<byte>>)
    | ObjectIdentifier(arcs: Option<seq<int>>)
    | IpAddress(text: string)
    | Counter32(count: int)
    | Gauge32(gauge: int)
    | TimeTicks(ticks: int)
    | Opaque(data: seq<byte>)
    | Counter64(count64: int)
    | Null
    | UnknownTag(tag: byte)
    | Unknown

  datatype VarBind = VarBind(oid: seq<int>, value: Value)

  // ---------------------------------------------------------------------
  // Numbers from octets
  // ---------------------------------------------------------------------

  function Pow256(n: nat): (r: nat)
    ensures r > 0
  {
    if n == 0 then 1 else 256 * Pow256(n - 1)
  }

  /** The unsigned big-endian value of the octets. */
  function Unsigned(bytes: seq<byte>): nat
  {
    if bytes == [] then 0 else Unsigned(bytes[..|bytes| - 1]) * 256 + bytes[|bytes| - 1]
  }

  lemma {:induction false} UnsignedBelow(bytes: seq<byte>)
    ensures Unsigned(bytes) < Pow256(|bytes|)
  {
    if bytes != [] {
      UnsignedBelow(bytes[..|bytes| - 1]);
    }
  }

  /** The leading octet weighs 256^(n-1). */
  lemma {:induction false} UnsignedLeading(bytes: seq<byte>)
    requires |bytes| > 0
    ensures Unsigned(bytes) == bytes[0] * Pow256(|bytes| - 1) + Unsigned(bytes[1..])
  {
    if |bytes| > 1 {
      var init := bytes[..|bytes| - 1];
      UnsignedLeading(init);
      var tail := bytes[1..];
      assert init[1..] == tail[..|tail| - 1] && tail[|tail| - 1] == bytes[|bytes| - 1];
      assert Unsigned(bytes) == Unsigned(init) * 256 + bytes[|bytes| - 1];
      assert Unsigned(tail) == Unsigned(init[1..]) * 256 + bytes[|bytes| - 1];
      assert Pow256(|bytes| - 1) == Pow256(|init| - 1) * 256;
      Regroup(bytes[0] as int, Pow256(|init| - 1), Unsigned(init[1..]), bytes[|bytes| - 1] as int);
    } else {
      assert bytes[1..] == [];
    }
  }

  lemma Regroup(a: int, p: int, t: int, last: int)
    ensures (a * p + t) * 256 + last == a * (p * 256) + (t * 256 + last)
  {
    calc {
      (a * p + t) * 256 + last;
      a * p * 256 + t * 256 + last;
      a * (p * 256) + (t * 256 + last);
    }
  }

  /** Four octets read big-endian, the same value Base.BE32 gives. */
  lemma UnsignedFour(bytes: seq<byte>)
    requires |bytes| == 4
    ensures Unsigned(bytes) == BE32(bytes, 0)
  {
    assert Unsigned(bytes[..1]) == bytes[0] by { assert bytes[..1][..0] == []; }
    assert Unsigned(bytes[..2]) == bytes[0] as int * 256 + bytes[1] by { assert bytes[..2][..1] == bytes[..1]; }
    assert Unsigned(bytes[..3]) == (bytes[0] as int * 256 + bytes[1]) * 256 + bytes[2] by {
      assert bytes[..3][..2] == bytes[..2];
    }
    assert bytes[..4] == bytes;
  }

  // ---------------------------------------------------------------------
  // readByte and fixed-count reads
  // ---------------------------------------------------------------------

  /** readByte: the octet at pos and one step on, or a throw past the end. */
  function ByteAt(buf: seq<byte>, pos: int): (r: Parsed<byte>)
    requires 0 <= pos <= |buf|
    ensures pos < |buf| ==> r == Parsed(Returned(buf[pos]), pos + 1)
    ensures pos == |buf| ==> r == Parsed(Threw, pos)
  {
    if pos < |buf| then Parsed(Returned(buf[pos]), pos + 1) else Parsed(Threw, pos)
  }

  /** n successive readByte calls (none when n <= 0): the octets, or a
    * throw once the buffer runs out, with the position at the end. */
  function ReadN(buf: seq<byte>, pos: int, n: int): (r: Parsed<seq<byte>>)
    requires 0 <= pos <= |buf|
    ensures pos <= r.pos <= |buf|
    ensures r.out.Threw? <==> n > 0 && pos + n > |buf|
    ensures r.out.Threw? ==> r.pos == |buf|
    ensures r.out.Returned? ==> r.pos == pos + |r.out.value| && r.out.value == buf[pos..r.pos]
                                && |r.out.value| == (if n <= 0 then 0 else n)
  {
    if n <= 0 then Parsed(Returned([]), pos)
    else if pos + n > |buf| then Parsed(Threw, |buf|)
    else Parsed(Returned(buf[pos..pos + n]), pos + n)
  }

  /** The loop `value = (value << 8) | readByte()` over n octets: the
    * big-endian value reduced to a signed 32-bit integer. */
  function FoldN(buf: seq<byte>, pos: int, n: int): (r: Parsed<int>)
    requires 0 <= pos <= |buf|
    ensures r.pos == ReadN(buf, pos, n).pos
    ensures r.out.Threw? <==> ReadN(buf, pos, n).out.Threw?
    ensures r.out.Returned? ==> -TWO_31 <= r.out.value < TWO_31
  {
    var bytes := ReadN(buf, pos, n);
    match bytes.out
    case Threw => Parsed(Threw, bytes.pos)
    case Returned(b) => Parsed(Returned(ToInt32(Unsigned(b))), bytes.pos)
  }

  /** Up to three octets, or four with a clear leading bit, never reach the
    * sign bit, so the loop gives the plain big-endian value. */
  lemma FoldIsUnsigned(bytes: seq<byte>)
    requires |bytes| <= 3 || (|bytes| == 4 && bytes[0] < 0x80)
    ensures ToInt32(Unsigned(bytes)) == Unsigned(bytes)
  {
    UnsignedBelow(bytes);
    if |bytes| == 4 {
      UnsignedLeading(bytes);
      UnsignedBelow(bytes[1..]);
    } else {
      assert Pow256(|bytes|) <= TWO_24;
    }
  }

  // ---------------------------------------------------------------------
  // parseLength (X.690 section 8.1.3)
  // ---------------------------------------------------------------------

  /** parseLength. It never throws: it answers null at the end of the
    * buffer, for the indefinite form (0x80), for more than four length
    * octets, and when the length octets run past the end. */
  function LengthAt(buf: seq<byte>, pos: int): (r: Parsed<Option<int>>)
    requires 0 <= pos <= |buf|
    ensures r.out.Returned? && pos <= r.pos <= |buf|
    ensures pos == |buf| ==> r == Parsed(Returned(None), pos)
    ensures pos < |buf| && buf[pos] < 0x80 ==> r == Parsed(Returned(Some(buf[pos] as int)), pos + 1)
    ensures pos < |buf| && (buf[pos] == 0x80 || buf[pos] > 0x84) ==> r == Parsed(Returned(None), pos + 1)
    ensures pos < |buf| && 0x80 < buf[pos] <= 0x84 ==>
              var n := buf[pos] - 0x80;
              (pos + 1 + n <= |buf| ==>
                 r == Parsed(Returned(Some(ToInt32(Unsigned(buf[pos + 1..pos + 1 + n])))), pos + 1 + n))
              && (pos + 1 + n > |buf| ==> r == Parsed(Returned(None), |buf|))
  {
    if pos == |buf| then Parsed(Returned(None), pos)
    else
      var first := buf[pos];
      if first < 0x80 then Parsed(Returned(Some(first as int)), pos + 1)
      else
        var n := first - 0x80;
        if n == 0 || n > 4 then Parsed(Returned(None), pos + 1)
        else if pos + 1 + n > |buf| then Parsed(Returned(None), |buf|)
        else Parsed(Returned(Some(ToInt32(Unsigned(buf[pos + 1..pos + 1 + n])))), pos + 1 + n)
  }

  /** A definite-form length as a sender writes it: one octet below 128,
    * otherwise 0x84 and four big-endian octets. */
  function EncodeLength(n: int): (r: seq<byte>)
    requires 0 <= n < TWO_32
    ensures |r| == (if n < 0x80 then 1 else 5)
  {
    if n < 0x80 then [n] else [0x84] + WriteUInt32(n)
  }

  /** parseLength reads back every length below 2^31 and stops right after
    * it; longer lengths come back negative (the shift is 32-bit). */
  lemma LengthRoundTrip(n: int, rest: seq<byte>)
    requires 0 <= n < TWO_31
    ensures LengthAt(EncodeLength(n) + rest, 0) == Parsed(Returned(Some(n)), |EncodeLength(n)|)
  {
    var buf := EncodeLength(n) + rest;
    if n >= 0x80 {
      var e := WriteUInt32(n);
      LongFormSplit(e, rest, buf);
      UnsignedFour(e);
      assert Unsigned(buf[1..5]) == n;
    } else {
      assert buf[0] == n;
    }
  }

  lemma LongFormSplit(e: seq<byte>, rest: seq<byte>, buf: seq<byte>)
    requires |e| == 4 && buf == [0x84] + e + rest
    ensures |buf| >= 5 && buf[0] == 0x84 && buf[1..5] == e
  {
    assert buf[1..5] == e;
  }

  // ---------------------------------------------------------------------
  // parseInteger (X.690 section 8.3)
  // ---------------------------------------------------------------------

  /** The value parseInteger computes from n > 0 content octets: the 32-bit
    * fold, minus 2^(8n) when the leading octet has its high bit set. */
  function IntegerValue(content: seq<byte>): (r: int)
    requires |content| > 0
    ensures content[0] >= 0x80 ==> r < 0
    ensures content[0] < 0x80 && |content| <= 4 ==> r == Unsigned(content)
  {
    var v := ToInt32(Unsigned(content));
    if content[0] >= 0x80 then
      UnsignedBelow(content);
      UnsignedLeading(content);
      assert |content| <= 3 ==> v == Unsigned(content) by {
        if |content| <= 3 { FoldIsUnsigned(content); }
      }
      assert |content| >= 4 ==> Pow256(|content|) >= TWO_32 by {
        if |content| >= 4 { PowMonotone(4, |content|); }
      }
      v - Pow256(|content|)
    else
      if |content| <= 4 then FoldIsUnsigned(content); v else v
  }

  lemma {:induction false} PowMonotone(m: nat, n: nat)
    requires m <= n
    ensures Pow256(m) <= Pow256(n)
  {
    if m < n {
      PowMonotone(m, n - 1);
    }
  }

  /** parseInteger: null for another tag, for a null or zero length; a
    * negative length reads nothing and gives 0. */
  function IntegerAt(buf: seq<byte>, pos: int): (r: Parsed<Option<int>>)
    requires 0 <= pos <= |buf|
    ensures pos <= r.pos <= |buf|
    ensures pos == |buf| ==> r.out.Threw?
    ensures pos < |buf| && buf[pos] != TAG_INTEGER ==> r == Parsed(Returned(None), pos + 1)
    ensures pos < |buf| && buf[pos] == TAG_INTEGER && LengthAt(buf, pos + 1).out.value in {None, Some(0)} ==>
              r.out == Returned(None)
    ensures r.out.Returned? && r.out.value.Some? ==>
              var l := LengthAt(buf, pos + 1);
              pos < |buf| && buf[pos] == TAG_INTEGER && l.out.value.Some? &&
              (l.out.value.value > 0 ==> r.pos == l.pos + l.out.value.value && l.pos < r.pos <= |buf|
                                         && r.out.value.value == IntegerValue(buf[l.pos..r.pos]))
    ensures r.out.Returned? && pos < |buf| ==> r.pos > pos
  {
    if pos == |buf| then Parsed(Threw, pos)
    else if buf[pos] != TAG_INTEGER then Parsed(Returned(None), pos + 1)
    else
      var l := LengthAt(buf, pos + 1);
      match l.out.value
      case None => Parsed(Returned(None), l.pos)
      case Some(len) =>
        if len == 0 then Parsed(Returned(None), l.pos)
        else
          var c := ReadN(buf, l.pos, len);
          match c.out
          case Threw => Parsed(Threw, c.pos)
          case Returned(content) =>
            if len > 0 then Parsed(Returned(Some(IntegerValue(content))), c.pos)
            else Parsed(Returned(Some(0)), c.pos)
  }

  /** Two's complement as X.690 section 8.3.3 defines it: the value in
    * the signed range of n octets that agrees with the unsigned reading
    * modulo 256^n. */
  function TwosComplement(content: seq<byte>): (r: int)
    requires |content| > 0
    ensures -128 * Pow256(|content| - 1) <= r < 128 * Pow256(|content| - 1)
    ensures r + (if r < 0 then Pow256(|content|) else 0) == Unsigned(content)
    ensures r < 0 <==> content[0] >= 0x80
  {
    SignBit(content);
    if content[0] >= 0x80 then Unsigned(content) - Pow256(|content|) else Unsigned(content)
  }

  /** The leading bit is set exactly when the unsigned reading reaches half
    * of 256^n. */
  lemma SignBit(content: seq<byte>)
    requires |content| > 0
    ensures Unsigned(content) < Pow256(|content|) == 256 * Pow256(|content| - 1)
    ensures content[0] >= 0x80 <==> Unsigned(content) >= 128 * Pow256(|content| - 1)
  {
    var q := Pow256(|content| - 1);
    var c := content[0] as int;
    UnsignedBelow(content);
    UnsignedLeading(content);
    UnsignedBelow(content[1..]);
    if c >= 0x80 {
      MulLe(128, c, q);
    } else {
      MulLe(c, 127, q);
    }
  }

  lemma MulLe(a: int, b: int, q: nat)
    requires a <= b
    ensures a * q <= b * q
  {
  }

  /** Up to three content octets, parseInteger agrees with two's complement. */
  lemma IntegerValueShort(content: seq<byte>)
    requires 0 < |content| <= 3
    ensures IntegerValue(content) == TwosComplement(content)
  {
    FoldIsUnsigned(content);
  }

  /** With four content octets and the sign bit set, the fold is already
    * negative and the second subtraction takes it 2^32 too low: 02 04 FF
    * FF FF FF, the encoding of -1, decodes to -4294967297. */
  lemma IntegerValueFourNegative()
    ensures IntegerAt([0x02, 0x04, 0xFF, 0xFF, 0xFF, 0xFF], 0).out == Returned(Some(-4294967297))
    ensures TwosComplement([0xFF, 0xFF, 0xFF, 0xFF]) == -1
  {
    var content: seq<byte> := [0xFF, 0xFF, 0xFF, 0xFF];
    UnsignedFour(content);
    assert Unsigned(content) == 0xFFFF_FFFF;
    assert [0x02, 0x04, 0xFF, 0xFF, 0xFF, 0xFF][2..6] == content;
  }

  // ---------------------------------------------------------------------
  // parseObjectIdentifier (X.690 section 8.19)
  // ---------------------------------------------------------------------

  /** The arcs the loop has pushed and the value it is accumulating. */
  datatype ArcState = ArcState(arcs: seq<int>, value: int)

  /** One iteration: `value = (value << 7) | (byte & 0x7f)`, pushed and
    * reset when the continuation bit is clear. */
  function ArcStep(s: ArcState, b: byte): ArcState
  {
    var v := ToInt32(s.value * 128 + b % 128);
    if b < 0x80 then ArcState(s.arcs + [v], 0) else ArcState(s.arcs, v)
  }

  function ArcsFrom(s: ArcState, bytes: seq<byte>): ArcState
  {
    if bytes == [] then s else ArcStep(ArcsFrom(s, bytes[..|bytes| - 1]), bytes[|bytes| - 1])
  }

  lemma {:induction false} ArcsFromAppend(s: ArcState, x: seq<byte>, y: seq<byte>)
    ensures ArcsFrom(s, x + y) == ArcsFrom(ArcsFrom(s, x), y)
  {
    if y != [] {
      assert (x + y)[..|x + y| - 1] == x + y[..|y| - 1];
      ArcsFromAppend(s, x, y[..|y| - 1]);
    } else {
      assert x + y == x;
    }
  }

  /** The first subidentifier as the source splits it: octet / 40 and
    * octet % 40, whatever the octet. */
  function FirstArcs(first: byte): (r: seq<int>)
    ensures |r| == 2 && first == 40 * r[0] + r[1] && 0 <= r[1] < 40
  {
    [first / 40, first % 40]
  }

  /** X.690 section 8.19.4 for a one-octet first subidentifier: the first
    * arc is 0, 1 or 2, and only under arc 2 may the second reach 40. */
  function FirstArcsX690(first: byte): (r: seq<int>)
    ensures |r| == 2 && first == 40 * r[0] + r[1] && 0 <= r[0] <= 2
  {
    if first < 80 then [first / 40, first % 40] else [2, first - 80]
  }

  /** Every pair of first arcs that fits one octet reads back. */
  lemma FirstArcsRoundTrip(x: int, y: int)
    requires 0 <= x <= 2 && 0 <= y && (x < 2 ==> y < 40) && 40 * x + y < 256
    ensures FirstArcsX690(40 * x + y) == [x, y]
  {
  }

  /** The source's split answers 3.0 for the octet 120, which encodes 2.40. */
  lemma FirstArcsAbove119()
    ensures FirstArcs(120) == [3, 0] && FirstArcsX690(120) == [2, 40]
  {
  }

  /** parseObjectIdentifier: the arcs, or null for another tag or a null or
    * zero length. The first content octet is always read, even when the
    * length is negative; the loop then reads up to position + length. */
  function OidAt(buf: seq<byte>, pos: int): (r: Parsed<Option<seq<int>>>)
    requires 0 <= pos <= |buf|
    ensures pos <= r.pos <= |buf|
    ensures pos == |buf| ==> r.out.Threw?
    ensures pos < |buf| && buf[pos] != TAG_OBJECT_IDENTIFIER ==> r == Parsed(Returned(None), pos + 1)
    ensures r.out.Returned? && pos < |buf| ==> r.pos > pos
    ensures r.out.Returned? && r.out.value.Some? ==>
              pos < |buf| &&
              var p := LengthAt(buf, pos + 1).pos;
              p < |buf| && |r.out.value.value| >= 2 && r.out.value.value[..2] == FirstArcs(buf[p])
              && LengthAt(buf, pos + 1).out.value.Some?
              && ArcsUntil(buf, p + 1, p + LengthAt(buf, pos + 1).out.value.value) == Parsed(Returned(r.out.value.value[2..]), r.pos)
  {
    if pos == |buf| then Parsed(Threw, pos)
    else if buf[pos] != TAG_OBJECT_IDENTIFIER then Parsed(Returned(None), pos + 1)
    else
      var l := LengthAt(buf, pos + 1);
      match l.out.value
      case None => Parsed(Returned(None), l.pos)
      case Some(len) =>
        if len == 0 then Parsed(Returned(None), l.pos)
        else
          var p := l.pos;
          var end := p + len;
          if p == |buf| then Parsed(Threw, p)
          else
            var rest := ArcsUntil(buf, p + 1, end);
            match rest.out
            case Threw => Parsed(Threw, rest.pos)
            case Returned(arcs) =>
              assert (FirstArcs(buf[p]) + arcs)[2..] == arcs;
              Parsed(Returned(Some(FirstArcs(buf[p]) + arcs)), rest.pos)
  }

  /** The subidentifier loop of parseObjectIdentifier from pos while the
    * position is before end: the arcs completed on the way (a last arc
    * whose continuation bit never clears is dropped), or a throw when end
    * lies beyond the buffer. */
  function ArcsUntil(buf: seq<byte>, pos: int, end: int): (r: Parsed<seq<int>>)
    requires 0 <= pos <= |buf|
    ensures pos <= r.pos <= |buf|
    ensures r.out.Threw? <==> end > |buf|
    ensures r.out.Returned? ==> r.pos == (if end > pos then end else pos)
                                && r.out.value == ArcsFrom(ArcState([], 0), buf[pos..r.pos]).arcs
  {
    if end > |buf| then Parsed(Threw, |buf|)
    else
      var stop := if end > pos then end else pos;
      Parsed(Returned(ArcsFrom(ArcState([], 0), buf[pos..stop]).arcs), stop)
  }

  /** Base-128 digits of an arc, high bit set on all but the last. */
  function Base128(a: nat): (r: seq<byte>)
    ensures |r| > 0 && r[|r| - 1] < 0x80
  {
    if a < 0x80 then [a] else Continued(a / 0x80) + [a % 0x80]
  }

  function Continued(q: nat): (r: seq<byte>)
    ensures |r| > 0
  {
    if q < 0x80 then [q + 0x80] else Continued(q / 0x80) + [q % 0x80 + 0x80]
  }

  lemma {:induction false} ContinuedValue(acc: seq<int>, q: nat)
    requires q < TWO_24
    ensures ArcsFrom(ArcState(acc, 0), Continued(q)) == ArcState(acc, q)
  {
    var c := Continued(q);
    if q < 0x80 {
      assert c[..0] == [];
      ContinuedDigit(acc, 0, q);
    } else {
      ContinuedValue(acc, q / 0x80);
      assert c[..|c| - 1] == Continued(q / 0x80);
      ContinuedDigit(acc, q / 0x80, q % 0x80);
    }
  }

  /** A digit with the continuation bit set shifts into the value. */
  lemma ContinuedDigit(acc: seq<int>, p: nat, d: nat)
    requires p < 0x2_0000 && d < 0x80
    ensures ArcStep(ArcState(acc, p), d + 0x80) == ArcState(acc, p * 128 + d)
  {
    assert (d + 0x80) % 128 == d;
    assert 0 <= p * 128 + d < TWO_24;
  }

  /** The loop reads back any arc below 2^31 from its base-128 digits. */
  lemma Base128Value(acc: seq<int>, a: nat)
    requires a < TWO_31
    ensures ArcsFrom(ArcState(acc, 0), Base128(a)) == ArcState(acc + [a], 0)
  {
    var e := Base128(a);
    if a < 0x80 {
      assert e[..0] == [];
      LastDigit(acc, 0, a);
    } else {
      ContinuedValue(acc, a / 0x80);
      assert e[..|e| - 1] == Continued(a / 0x80);
      LastDigit(acc, a / 0x80, a % 0x80);
    }
  }

  /** A digit with the continuation bit clear completes the arc. */
  lemma LastDigit(acc: seq<int>, p: nat, d: nat)
    requires p * 128 + d < TWO_31 && d < 0x80
    ensures ArcStep(ArcState(acc, p), d) == ArcState(acc + [p * 128 + d], 0)
  {
  }

  /** The subidentifiers after the first, one after another. */
  function EncodeArcs(arcs: seq<nat>): seq<byte>
  {
    if arcs == [] then [] else EncodeArcs(arcs[..|arcs| - 1]) + Base128(arcs[|arcs| - 1])
  }

  /** Decoding the encoding of arcs below 2^31 gives them back, with
    * nothing left pending. */
  lemma {:induction false} ArcsRoundTrip(arcs: seq<nat>)
    requires forall k :: 0 <= k < |arcs| ==> arcs[k] < TWO_31
    ensures ArcsFrom(ArcState([], 0), EncodeArcs(arcs)) == ArcState(arcs, 0)
  {
    if arcs != [] {
      var init := arcs[..|arcs| - 1];
      var last := arcs[|arcs| - 1];
      assert EncodeArcs(arcs) == EncodeArcs(init) + Base128(last);
      ArcsRoundTrip(init);
      ArcsFromAppend(ArcState([], 0), EncodeArcs(init), Base128(last));
      Base128Value(init, last);
      assert init + [last] == arcs;
    }
  }

  // ---------------------------------------------------------------------
  // parseOctetString, parseIpAddress
  // ---------------------------------------------------------------------

  /** parseOctetString, keeping the octets (the UTF-8 decoding is not
    * modelled). */
  function OctetStringAt(buf: seq<byte>, pos: int): (r: Parsed<Option<seq<byte>>>)
    requires 0 <= pos <= |buf|
    ensures pos <= r.pos <= |buf|
    ensures r.out.Returned? && pos < |buf| ==> r.pos > pos
    ensures pos == |buf| ==> r.out.Threw?
    ensures r.out.Returned? && r.out.value.Some? ==>
              pos < |buf| && buf[pos] == TAG_OCTET_STRING && LengthAt(buf, pos + 1).pos <= r.pos
              && r.out.value.value == buf[LengthAt(buf, pos + 1).pos..r.pos]
  {
    if pos == |buf| then Parsed(Threw, pos)
    else if buf[pos] != TAG_OCTET_STRING then Parsed(Returned(None), pos + 1)
    else
      var l := LengthAt(buf, pos + 1);
      match l.out.value
      case None => Parsed(Returned(None), l.pos)
      case Some(len) =>
        var c := ReadN(buf, l.pos, len);
        match c.out
        case Threw => Parsed(Threw, c.pos)
        case Returned(bytes) => Parsed(Returned(Some(bytes)), c.pos)
  }

  function Dotted(bytes: seq<byte>): string
  {
    DottedDecimal(seq(|bytes|, k requires 0 <= k < |bytes| => bytes[k] as int))
  }

  /** parseIpAddress: another tag is put back (the position returns to
    * where it was) and answers 0.0.0.0, as does a length other than 4. */
  function IpAddressAt(buf: seq<byte>, pos: int): (r: Parsed<string>)
    requires 0 <= pos <= |buf|
    ensures pos <= r.pos <= |buf|
    ensures pos == |buf| ==> r.out.Threw?
    ensures pos < |buf| && buf[pos] != TAG_IP_ADDRESS ==> r == Parsed(Returned(ZERO_ADDRESS), pos)
    ensures pos < |buf| && buf[pos] == TAG_IP_ADDRESS && LengthAt(buf, pos + 1).out.value != Some(4) ==>
              r == Parsed(Returned(ZERO_ADDRESS), LengthAt(buf, pos + 1).pos)
    ensures pos < |buf| && buf[pos] == TAG_IP_ADDRESS && LengthAt(buf, pos + 1).out.value == Some(4) ==>
              var p := LengthAt(buf, pos + 1).pos;
              (p + 4 <= |buf| ==> r == Parsed(Returned(Dotted(buf[p..p + 4])), p + 4))
              && (p + 4 > |buf| ==> r.out.Threw?)
  {
    if pos == |buf| then Parsed(Threw, pos)
    else if buf[pos] != TAG_IP_ADDRESS then Parsed(Returned(ZERO_ADDRESS), pos)
    else
      var l := LengthAt(buf, pos + 1);
      if l.out.value != Some(4) then Parsed(Returned(ZERO_ADDRESS), l.pos)
      else
        var c := ReadN(buf, l.pos, 4);
        match c.out
        case Threw => Parsed(Threw, c.pos)
        case Returned(bytes) => Parsed(Returned(Dotted(bytes)), c.pos)
  }

  // ---------------------------------------------------------------------
  // parseValue, parseVarBind, parseVarBindList
  // ---------------------------------------------------------------------

  /** The value a numeric loop gives, wrapped as the tag says. */
  function Counted(tag: byte, v: int): Value
  {
    if tag == TAG_COUNTER32 then Counter32(v)
    else if tag == TAG_GAUGE32 then Gauge32(v)
    else if tag == TAG_TIME_TICKS then TimeTicks(v)
    else Counter64(v)
  }

  predicate IsCounted(tag: byte)
  {
    tag == TAG_COUNTER32 || tag == TAG_GAUGE32 || tag == TAG_TIME_TICKS || tag == TAG_COUNTER64
  }

  /** parseValue: Unknown at the end of the buffer or for a null length;
    * INTEGER, OCTET STRING and OBJECT IDENTIFIER start again from the tag;
    * an IpAddress takes at most four octets; NULL skips nothing; an
    * unknown tag skips its content. */
  function ValueAt(buf: seq<byte>, pos: int): (r: Parsed<Value>)
    requires 0 <= pos <= |buf|
    ensures pos <= r.pos <= |buf|
    ensures r.out.Returned? && pos < |buf| ==> r.pos > pos
    ensures pos == |buf| ==> r == Parsed(Returned(Unknown), pos)
    ensures pos < |buf| && LengthAt(buf, pos + 1).out.value.None? ==> r == Parsed(Returned(Unknown), LengthAt(buf, pos + 1).pos)
    ensures pos < |buf| && LengthAt(buf, pos + 1).out.value.Some? && IsCounted(buf[pos]) ==>
              var f := FoldN(buf, LengthAt(buf, pos + 1).pos, LengthAt(buf, pos + 1).out.value.value);
              r.pos == f.pos && (r.out.Threw? <==> f.out.Threw?) && (f.out.Returned? ==> r.out.value == Counted(buf[pos], f.out.value))
  {
    if pos == |buf| then Parsed(Returned(Unknown), pos)
    else
      var tag := buf[pos];
      var l := LengthAt(buf, pos + 1);
      match l.out.value
      case None => Parsed(Returned(Unknown), l.pos)
      case Some(len) =>
        if tag == TAG_INTEGER then
          var i := IntegerAt(buf, pos);
          Parsed(if i.out.Threw? then Threw else Returned(Integer(i.out.value)), i.pos)
        else if tag == TAG_OCTET_STRING then
          var o := OctetStringAt(buf, pos);
          Parsed(if o.out.Threw? then Threw else Returned(OctetString(o.out.value)), o.pos)
        else if tag == TAG_OBJECT_IDENTIFIER then
          var o := OidAt(buf, pos);
          Parsed(if o.out.Threw? then Threw else Returned(ObjectIdentifier(o.out.value)), o.pos)
        else if tag == TAG_IP_ADDRESS then
          var c := ReadN(buf, l.pos, if len < 4 then len else 4);
          Parsed(if c.out.Threw? then Threw else Returned(IpAddress(Dotted(c.out.value))), c.pos)
        else if IsCounted(tag) then
          var f := FoldN(buf, l.pos, len);
          Parsed(if f.out.Threw? then Threw else Returned(Counted(tag, f.out.value)), f.pos)
        else if tag == TAG_OPAQUE then
          var c := ReadN(buf, l.pos, len);
          Parsed(if c.out.Threw? then Threw else Returned(Opaque(c.out.value)), c.pos)
        else if tag == TAG_NULL then
          Parsed(Returned(Null), l.pos)
        else
          var c := ReadN(buf, l.pos, len);
          Parsed(if c.out.Threw? then Threw else Returned(UnknownTag(tag)), c.pos)
  }

  /** parseVarBind: null at the end, for another tag than SEQUENCE, for a
    * null length or a null OID; the sequence length itself is not used. */
  function VarBindAt(buf: seq<byte>, pos: int): (r: Parsed<Option<VarBind>>)
    requires 0 <= pos <= |buf|
    ensures pos <= r.pos <= |buf|
    ensures pos == |buf| ==> r == Parsed(Returned(None), pos)
    ensures pos < |buf| && buf[pos] != TAG_SEQUENCE ==> r == Parsed(Returned(None), pos + 1)
    ensures r.out.Returned? && r.out.value.Some? ==> r.pos > pos && |r.out.value.value.oid| >= 2
  {
    if pos == |buf| then Parsed(Returned(None), pos)
    else if buf[pos] != TAG_SEQUENCE then Parsed(Returned(None), pos + 1)
    else
      var l := LengthAt(buf, pos + 1);
      if l.out.value.None? then Parsed(Returned(None), l.pos)
      else
        var o := OidAt(buf, l.pos);
        match o.out
        case Threw => Parsed(Threw, o.pos)
        case Returned(None) => Parsed(Returned(None), o.pos)
        case Returned(Some(arcs)) =>
          var v := ValueAt(buf, o.pos);
          match v.out
          case Threw => Parsed(Threw, v.pos)
          case Returned(value) => Parsed(Returned(Some(VarBind(arcs, value))), v.pos)
  }

  /** The loop of parseVarBindList from pos with the bindings so far. */
  function VarBindsFrom(buf: seq<byte>, pos: int, end: int, acc: seq<VarBind>): (r: Parsed<seq<VarBind>>)
    requires 0 <= pos <= |buf|
    ensures pos <= r.pos <= |buf|
    ensures r.out.Returned? ==> |r.out.value| >= |acc| && r.out.value[..|acc|] == acc
    decreases |buf| - pos
  {
    if !(pos < end && pos < |buf|) then Parsed(Returned(acc), pos)
    else
      var v := VarBindAt(buf, pos);
      match v.out
      case Threw => Parsed(Threw, v.pos)
      case Returned(None) => Parsed(Returned(acc), v.pos)
      case Returned(Some(vb)) =>
        var r := VarBindsFrom(buf, v.pos, end, acc + [vb]);
        assert r.out.Returned? ==> r.out.value[..|acc|] == (acc + [vb])[..|acc|];
        r
  }

  /** parseVarBindList: [] for another tag or a null length; otherwise the
    * bindings read while the position is before the declared end and the
    * buffer's, stopping at the first null binding. */
  function VarBindListAt(buf: seq<byte>, pos: int): (r: Parsed<seq<VarBind>>)
    requires 0 <= pos <= |buf|
    ensures pos <= r.pos <= |buf|
    ensures pos == |buf| ==> r.out.Threw?
  {
    if pos == |buf| then Parsed(Threw, pos)
    else if buf[pos] != TAG_SEQUENCE then Parsed(Returned([]), pos + 1)
    else
      var l := LengthAt(buf, pos + 1);
      match l.out.value
      case None => Parsed(Returned([]), l.pos)
      case Some(len) =>
        VarBindsUntil(buf, l.pos, l.pos + len)
  }

  /** The bindings from pos up to end, none read yet. */
  function VarBindsUntil(buf: seq<byte>, pos: int, end: int): (r: Parsed<seq<VarBind>>)
    requires 0 <= pos <= |buf|
  {
    VarBindsFrom(buf, pos, end, [])
  }

  /** Every binding the list yields carries an OID of at least two arcs. */
  lemma VarBindListOids(buf: seq<byte>, pos: int)
    requires 0 <= pos <= |buf|
    ensures var r := VarBindListAt(buf, pos);
            r.out.Returned? ==> forall k :: 0 <= k < |r.out.value| ==> |r.out.value[k].oid| >= 2
  {
    if pos < |buf| && buf[pos] == TAG_SEQUENCE {
      var l := LengthAt(buf, pos + 1);
      if l.out.value.Some? {
        var end := l.pos + l.out.value.value;
        ListUnfolds(buf, pos, l.pos, end);
        VarBindsHaveOids(buf, l.pos, end, []);
      }
    }
  }

  /** VarBindListAt after a SEQUENCE tag and a length. */
  lemma ListUnfolds(buf: seq<byte>, pos: int, p: int, end: int)
    requires 0 <= pos < |buf| && buf[pos] == TAG_SEQUENCE
    requires LengthAt(buf, pos + 1).pos == p && LengthAt(buf, pos + 1).out.value == Some(end - p)
    ensures 0 <= p <= |buf| && VarBindsUntil(buf, p, end) == VarBindListAt(buf, pos)
  {
  }

  lemma {:induction false} VarBindsHaveOids(buf: seq<byte>, pos: int, end: int, acc: seq<VarBind>)
    requires 0 <= pos <= |buf|
    requires forall k :: 0 <= k < |acc| ==> |acc[k].oid| >= 2
    ensures var r := VarBindsFrom(buf, pos, end, acc);
            r.out.Returned? ==> forall k :: 0 <= k < |r.out.value| ==> |r.out.value[k].oid| >= 2
    decreases |buf| - pos
  {
    if pos < end && pos < |buf| {
      var v := VarBindAt(buf, pos);
      if v.out.Returned? && v.out.value.Some? {
        VarBindsHaveOids(buf, v.pos, end, acc + [v.out.value.value]);
      }
    }
  }

  // ---------------------------------------------------------------------
  // The parser object
  // ---------------------------------------------------------------------

  /** Asn1Parser: a received buffer and the position of the next read. */
  class Parser {
    const buffer: seq<byte>
    var position: int

    predicate Valid()
      reads this
    {
      0 <= position <= |buffer|
    }

    constructor(buffer: seq<byte>)
      ensures this.buffer == buffer && position == 0 && Valid()
    {
      this.buffer := buffer;
      position := 0;
    }

    method ReadByte() returns (r: Outcome<byte>)
      requires Valid()
      modifies this
      ensures Valid()
      ensures old(position) < |buffer| ==> r == Returned(buffer[old(position)]) && position == old(position) + 1
      ensures old(position) == |buffer| ==> r == Threw && position == old(position)
    {
      if position >= |buffer| {
        return Threw;
      }
      r := Returned(buffer[position]);
      position := position + 1;
    }

    /** n readByte calls, keeping the octets. */
    method ReadBytes(n: int) returns (r: Outcome<seq<byte>>)
      requires Valid()
      modifies this
      ensures Valid() && Parsed(r, position) == ReadN(buffer, old(position), n)
    {
      var bytes: seq<byte> := [];
      var i := 0;
      while i < n
        invariant Valid() && 0 <= i <= (if n > 0 then n else 0)
        invariant position == old(position) + i && bytes == buffer[old(position)..position]
      {
        var b := ReadByte();
        if b.Threw? {
          return Threw;
        }
        bytes := bytes + [b.value];
        i := i + 1;
      }
      return Returned(bytes);
    }

    /** n iterations of `value = (value << 8) | this.readByte()`. */
    method ReadFolded(n: int) returns (r: Outcome<int>)
      requires Valid()
      modifies this
      ensures Valid() && Parsed(r, position) == FoldN(buffer, old(position), n)
    {
      var value := 0;
      var i := 0;
      while i < n
        invariant Valid() && 0 <= i <= (if n > 0 then n else 0)
        invariant position == old(position) + i
        invariant value == ToInt32(Unsigned(buffer[old(position)..position]))
      {
        var b := ReadByte();
        if b.Threw? {
          return Threw;
        }
        ShiftInToInt32(Unsigned(buffer[old(position)..position - 1]), 256, b.value);
        assert buffer[old(position)..position][..i] == buffer[old(position)..position - 1];
        value := ToInt32(value * 256 + b.value);
        i := i + 1;
      }
      return Returned(value);
    }

    method ParseLength() returns (r: Option<int>)
      requires Valid()
      modifies this
      ensures Valid() && Parsed(Returned(r), position) == LengthAt(buffer, old(position))
    {
      if position >= |buffer| {
        return None;
      }
      var first := ReadByte();
      var firstByte := first.value;
      if firstByte < 0x80 {
        return Some(firstByte as int);
      }
      var lengthBytes := firstByte - 0x80;
      if lengthBytes == 0 || lengthBytes > 4 {
        return None;
      }
      r := ReadLengthOctets(lengthBytes);
    }

    /** The long-form loop of parseLength: n length octets folded, or null
      * (with the position at the end) when the buffer runs out first. */
    method ReadLengthOctets(n: int) returns (r: Option<int>)
      requires Valid() && 0 < n
      modifies this
      ensures Valid()
      ensures old(position) + n <= |buffer| ==>
                r == Some(ToInt32(Unsigned(buffer[old(position)..old(position) + n]))) && position == old(position) + n
      ensures old(position) + n > |buffer| ==> r.None? && position == |buffer|
    {
      var start := position;
      var length := 0;
      var i := 0;
      while i < n
        invariant Valid() && 0 <= i <= n
        invariant position == start + i
        invariant length == ToInt32(Unsigned(buffer[start..position]))
      {
        if position >= |buffer| {
          return None;
        }
        var b := ReadByte();
        ShiftInToInt32(Unsigned(buffer[start..position - 1]), 256, b.value);
        assert buffer[start..position][..i] == buffer[start..position - 1];
        length := ToInt32(length * 256 + b.value);
        i := i + 1;
      }
      return Some(length);
    }

    method ParseInteger() returns (r: Outcome<Option<int>>)
      requires Valid()
      modifies this
      ensures Valid() && Parsed(r, position) == IntegerAt(buffer, old(position))
    {
      var tag := ReadByte();
      if tag.Threw? {
        return Threw;
      }
      if tag.value != TAG_INTEGER {
        return Returned(None);
      }
      var length := ParseLength();
      if length.None? || length.value == 0 {
        return Returned(None);
      }
      var start := position;
      var value := ReadFolded(length.value);
      if value.Threw? {
        return Threw;
      }
      if length.value > 0 && buffer[position - length.value] >= 0x80 {
        return Returned(Some(value.value - Pow256(length.value)));
      }
      return Returned(Some(value.value));
    }

    method ParseOctetString() returns (r: Outcome<Option<seq<byte>>>)
      requires Valid()
      modifies this
      ensures Valid() && Parsed(r, position) == OctetStringAt(buffer, old(position))
    {
      var tag := ReadByte();
      if tag.Threw? {
        return Threw;
      }
      if tag.value != TAG_OCTET_STRING {
        return Returned(None);
      }
      var length := ParseLength();
      if length.None? {
        return Returned(None);
      }
      var bytes := ReadBytes(length.value);
      if bytes.Threw? {
        return Threw;
      }
      return Returned(Some(bytes.value));
    }

    method ParseObjectIdentifier() returns (r: Outcome<Option<seq<int>>>)
      requires Valid()
      modifies this
      ensures Valid() && Parsed(r, position) == OidAt(buffer, old(position))
    {
      var tag := ReadByte();
      if tag.Threw? {
        return Threw;
      }
      if tag.value != TAG_OBJECT_IDENTIFIER {
        return Returned(None);
      }
      var length := ParseLength();
      if length.None? || length.value == 0 {
        return Returned(None);
      }
      var end := position + length.value;
      var first := ReadByte();
      if first.Threw? {
        return Threw;
      }
      var oid := FirstArcs(first.value);
      var arcs := ReadArcs(end);
      if arcs.Threw? {
        return Threw;
      }
      assert (oid + arcs.value)[2..] == arcs.value;
      return Returned(Some(oid + arcs.value));
    }

    /** The subidentifier loop of parseObjectIdentifier. */
    method ReadArcs(end: int) returns (r: Outcome<seq<int>>)
      requires Valid()
      modifies this
      ensures Valid() && Parsed(r, position) == ArcsUntil(buffer, old(position), end)
    {
      var start := position;
      var arcs: seq<int> := [];
      var value := 0;
      while position < end
        invariant Valid() && start <= position
        invariant position <= end || position == start
        invariant ArcState(arcs, value) == ArcsFrom(ArcState([], 0), buffer[start..position])
        decreases end - position
      {
        var b := ReadByte();
        if b.Threw? {
          return Threw;
        }
        assert buffer[start..position][..|buffer[start..position]| - 1] == buffer[start..position - 1];
        value := ToInt32(value * 128 + b.value % 128);
        if b.value < 0x80 {
          arcs := arcs + [value];
          value := 0;
        }
      }
      return Returned(arcs);
    }

    method ParseIpAddress() returns (r: Outcome<string>)
      requires Valid()
      modifies this
      ensures Valid() && Parsed(r, position) == IpAddressAt(buffer, old(position))
    {
      var tag := ReadByte();
      if tag.Threw? {
        return Threw;
      }
      if tag.value != TAG_IP_ADDRESS {
        position := position - 1;
        return Returned(ZERO_ADDRESS);
      }
      var length := ParseLength();
      if length != Some(4) {
        return Returned(ZERO_ADDRESS);
      }
      var ip := ReadBytes(4);
      if ip.Threw? {
        return Threw;
      }
      return Returned(Dotted(ip.value));
    }

    method ParseValue() returns (r: Outcome<Value>)
      requires Valid()
      modifies this
      ensures Valid() && Parsed(r, position) == ValueAt(buffer, old(position))
    {
      if position >= |buffer| {
        return Returned(Unknown);
      }
      var startPosition := position;
      var tag := ReadByte();
      var length := ParseLength();
      if length.None? {
        return Returned(Unknown);
      }
      var t := tag.value;
      if t == TAG_INTEGER {
        position := startPosition;
        var i := ParseInteger();
        return if i.Threw? then Threw else Returned(Integer(i.value));
      } else if t == TAG_OCTET_STRING {
        position := startPosition;
        var o := ParseOctetString();
        return if o.Threw? then Threw else Returned(OctetString(o.value));
      } else if t == TAG_OBJECT_IDENTIFIER {
        position := startPosition;
        var o := ParseObjectIdentifier();
        return if o.Threw? then Threw else Returned(ObjectIdentifier(o.value));
      } else if t == TAG_IP_ADDRESS {
        var ip := ReadBytes(if length.value < 4 then length.value else 4);
        return if ip.Threw? then Threw else Returned(IpAddress(Dotted(ip.value)));
      } else if IsCounted(t) {
        var v := ReadFolded(length.value);
        return if v.Threw? then Threw else Returned(Counted(t, v.value));
      } else if t == TAG_OPAQUE {
        var bytes := ReadBytes(length.value);
        return if bytes.Threw? then Threw else Returned(Opaque(bytes.value));
      } else if t == TAG_NULL {
        return Returned(Null);
      } else {
        var skipped := ReadBytes(length.value);
        return if skipped.Threw? then Threw else Returned(UnknownTag(t));
      }
    }

    method ParseVarBind() returns (r: Outcome<Option<VarBind>>)
      requires Valid()
      modifies this
      ensures Valid() && Parsed(r, position) == VarBindAt(buffer, old(position))
    {
      if position >= |buffer| {
        return Returned(None);
      }
      var tag := ReadByte();
      if tag.value != TAG_SEQUENCE {
        return Returned(None);
      }
      var length := ParseLength();
      if length.None? {
        return Returned(None);
      }
      var oid := ParseObjectIdentifier();
      if oid.Threw? {
        return Threw;
      }
      if oid.value.None? {
        return Returned(None);
      }
      var value := ParseValue();
      if value.Threw? {
        return Threw;
      }
      return Returned(Some(VarBind(oid.value.value, value.value)));
    }

    method ParseVarBindList() returns (r: Outcome<seq<VarBind>>)
      requires Valid()
      modifies this
      ensures Valid() && Parsed(r, position) == VarBindListAt(buffer, old(position))
    {
      ghost var start := position;
      var tag := ReadByte();
      if tag.Threw? {
        return Threw;
      }
      if tag.value != TAG_SEQUENCE {
        r := Returned([]);
        assert Parsed(r, position) == VarBindListAt(buffer, start);
        return;
      }
      var length := ParseLength();
      if length.None? {
        r := Returned([]);
        assert Parsed(r, position) == VarBindListAt(buffer, start);
        return;
      }
      var endPosition := position + length.value;
      ListUnfolds(buffer, start, position, endPosition);
      r := ReadVarBinds(endPosition);
    }

    /** The loop of parseVarBindList up to the declared end. */
    method ReadVarBinds(endPosition: int) returns (r: Outcome<seq<VarBind>>)
      requires Valid()
      modifies this
      ensures Valid() && Parsed(r, position) == VarBindsUntil(buffer, old(position), endPosition)
    {
      ghost var whole := VarBindsFrom(buffer, position, endPosition, []);
      var varbinds: seq<VarBind> := [];
      while position < endPosition && position < |buffer|
        invariant Valid()
        invariant VarBindsFrom(buffer, position, endPosition, varbinds) == whole
        decreases |buffer| - position
      {
        var varbind := ParseVarBind();
        if varbind.Threw? {
          return Threw;
        }
        if varbind.value.None? {
          assert whole == Parsed(Returned(varbinds), position);
          break;
        }
        varbinds := varbinds + [varbind.value.value];
      }
      return Returned(varbinds);
    }
  }
}
