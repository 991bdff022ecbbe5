/** electron/utils/bmpTlvParser.js: the TLVs of BMP version 4 (RFC 7854
  * section 4.4, extended by the BMP v4 drafts with an E-bit for
  * enterprise-specific types and with indexed TLVs), and the Group TLV. */
module BmpTlvParser {
  import opened Base
  import opened Bits
  import opened IpUtils

  /** One parsed TLV. `index` is present only in indexed TLVs and
    * `enterpriseNumber` only when the E-bit is set. */
  datatype Tlv = Tlv(
    tlvType: int,
    index: Option<int>,
    length: int,
    value: seq<byte>,
    isEnterprise: bool,
    enterpriseNumber: Option<int>)

  const E_BIT: int := 0x8000
  const TYPE_MASK: int := 0x7fff

  /** Header size: type and length, plus a 2-byte index in indexed TLVs. */
  function HeaderSize(indexed: bool): int
  {
    if indexed then 6 else 4
  }

  // ---------------------------------------------------------------------
  // The E-bit and the type
  // ---------------------------------------------------------------------

  /** For a 16-bit type field, `typeField & 0x8000` is non-zero exactly when
    * the most significant bit is set. */
  lemma EBitOfTypeField(typeField: int)
    requires 0 <= typeField < TWO_16
    ensures (JsAnd(typeField, E_BIT) != 0) == (typeField >= E_BIT)
  {
    SmallValue(typeField);
    SmallValue(E_BIT);
    var c := And(typeField, E_BIT);
    AndBound(typeField, E_BIT);
    SmallValue(c);
    EBitAnd(typeField);
  }

  /** Bit 15 of a 16-bit number, kept by `& 0x8000`, is set exactly when
    * the number is at least 0x8000. */
  lemma EBitAnd(a: nat)
    requires a < TWO_16
    ensures (And(a, E_BIT) != 0) == (a >= E_BIT)
  {
    var p15 := Pow2(15);
    Pow2Values();
    assert Pow2(16) == 2 * p15;
    var c := And(a, E_BIT);
    AndBound(a, E_BIT);
    forall i | 0 <= i < 16
      ensures Bit(c, i) == (i == 15 && a >= E_BIT)
    {
      AndBit(a, E_BIT, i);
      PowerBit(15, i);
      if i == 15 {
        if a >= E_BIT {
          DivUnique(a, p15, 1, a - E_BIT);
        } else {
          DivUnique(a, p15, 0, a);
        }
      }
    }
    NonZeroBit(c, 16);
    if a >= E_BIT {
      assert Bit(c, 15);
    }
  }

  /** `typeField & 0x7fff` is the type in the low 15 bits. */
  lemma TypeOfTypeField(typeField: int)
    requires 0 <= typeField < TWO_16
    ensures JsAnd(typeField, TYPE_MASK) == typeField % E_BIT
  {
    Pow2Values();
    assert Pow2(16) == 2 * Pow2(15);
    SmallValue(typeField);
    SmallValue(TYPE_MASK);
    AndLowBits(typeField, 15);
    AndBound(typeField, TYPE_MASK);
    SmallValue(And(typeField, TYPE_MASK));
  }

  // ---------------------------------------------------------------------
  // The TLV sequence
  // ---------------------------------------------------------------------

  /** The TLV that starts at position pos and the position right after it. */
  datatype Step = Step(tlv: Tlv, next: int)

  /** The TLV at position pos, if it is all there: none when the header,
    * the enterprise number (E-bit set) or the value does not fit. */
  function TlvAt(b: seq<byte>, pos: nat, indexed: bool): (r: Option<Step>)
    ensures r.Some? ==> pos + HeaderSize(indexed) <= r.value.next <= |b|
  {
    var hdr := HeaderSize(indexed);
    if pos + hdr > |b| then None
    else
      var typeField := BE16(b, pos);
      var isEnterprise := typeField >= E_BIT;
      var length := BE16(b, pos + hdr - 2);
      if isEnterprise && pos + hdr + 4 > |b| then None
      else
        var start := if isEnterprise then pos + hdr + 4 else pos + hdr;
        if start + length > |b| then None
        else
          Some(Step(Tlv(typeField % E_BIT,
                        if indexed then Some(BE16(b, pos + 2)) else None,
                        length,
                        b[start..start + length],
                        isEnterprise,
                        if isEnterprise then Some(BE32(b, pos + hdr)) else None),
                    start + length))
  }

  /** The TLVs read from position pos on, one after the other, until one
    * is not all there. */
  function TlvsFrom(b: seq<byte>, pos: nat, indexed: bool): seq<Tlv>
    decreases |b| - pos
  {
    match TlvAt(b, pos, indexed)
    case None => []
    case Some(step) => [step.tlv] + TlvsFrom(b, step.next, indexed)
  }

  /** What a TLV of the given kind can hold. */
  predicate WellFormedTlv(t: Tlv, indexed: bool)
  {
    && 0 <= t.tlvType < E_BIT
    && t.length == |t.value| < TWO_16
    && t.index.Some? == indexed
    && (t.index.Some? ==> 0 <= t.index.value < TWO_16)
    && t.enterpriseNumber.Some? == t.isEnterprise
    && (t.enterpriseNumber.Some? ==> 0 <= t.enterpriseNumber.value < TWO_32)
  }

  /** A TLV read is well formed, its value is the `length` octets that end
    * where it ends, and the position advances by the header, the
    * enterprise number if any, and the value. */
  lemma TlvAtWellFormed(b: seq<byte>, pos: nat, indexed: bool)
    requires TlvAt(b, pos, indexed).Some?
    ensures var step := TlvAt(b, pos, indexed).value;
            && WellFormedTlv(step.tlv, indexed)
            && step.tlv.value == b[step.next - step.tlv.length..step.next]
            && step.next == pos + HeaderSize(indexed) + (if step.tlv.isEnterprise then 4 else 0) + step.tlv.length
  {
  }

  /** Every TLV read is well formed. */
  lemma {:induction false} TlvsWellFormed(b: seq<byte>, pos: nat, indexed: bool)
    ensures forall k :: 0 <= k < |TlvsFrom(b, pos, indexed)| ==> WellFormedTlv(TlvsFrom(b, pos, indexed)[k], indexed)
    decreases |b| - pos
  {
    var first := TlvAt(b, pos, indexed);
    if first.Some? {
      TlvAtWellFormed(b, pos, indexed);
      TlvsWellFormed(b, first.value.next, indexed);
    }
  }

  /** The type word, the index word (indexed TLVs) and the length word. */
  function HeaderOctets(t: Tlv): seq<byte>
  {
    WriteUInt16(t.tlvType + (if t.isEnterprise then E_BIT else 0))
    + (if t.index.Some? then WriteUInt16(t.index.value) else [])
    + WriteUInt16(t.length)
  }

  function EnterpriseOctets(t: Tlv): seq<byte>
  {
    if t.enterpriseNumber.Some? then WriteUInt32(t.enterpriseNumber.value) else []
  }

  /** The octets of one TLV, laid out as RFC 7854 section 4.4 describes. */
  function EncodeTlv(t: Tlv): seq<byte>
  {
    HeaderOctets(t) + EnterpriseOctets(t) + t.value
  }

  function EncodeTlvs(ts: seq<Tlv>): seq<byte>
  {
    if ts == [] then [] else EncodeTlv(ts[0]) + EncodeTlvs(ts[1..])
  }

  /** Well-formed TLVs, written one after the other, read back as
    * themselves. */
  lemma TlvsRoundTrip(ts: seq<Tlv>, indexed: bool)
    requires forall k :: 0 <= k < |ts| ==> WellFormedTlv(ts[k], indexed)
    ensures TlvsFrom(EncodeTlvs(ts), 0, indexed) == ts
  {
    var b := EncodeTlvs(ts);
    assert b[0..] == b;
    TlvsReadBack(b, 0, ts, indexed);
  }

  /** Well-formed TLVs written from pos to the end of a buffer read back
    * from pos. */
  lemma {:induction false} TlvsReadBack(b: seq<byte>, pos: nat, ts: seq<Tlv>, indexed: bool)
    requires forall k :: 0 <= k < |ts| ==> WellFormedTlv(ts[k], indexed)
    requires pos <= |b| && b[pos..] == EncodeTlvs(ts)
    ensures TlvsFrom(b, pos, indexed) == ts
    decreases |ts|
  {
    if ts != [] {
      var next := FirstTlvReadBack(b, pos, ts, indexed);
      TlvsReadBack(b, next, ts[1..], indexed);
      assert [ts[0]] + ts[1..] == ts;
    }
  }

  /** The first of the TLVs written at pos reads back, and reading goes on
    * at the others. */
  lemma FirstTlvReadBack(b: seq<byte>, pos: nat, ts: seq<Tlv>, indexed: bool) returns (next: nat)
    requires ts != [] && WellFormedTlv(ts[0], indexed)
    requires pos <= |b| && b[pos..] == EncodeTlvs(ts)
    ensures next <= |b| && b[next..] == EncodeTlvs(ts[1..])
    ensures TlvsFrom(b, pos, indexed) == [ts[0]] + TlvsFrom(b, next, indexed)
  {
    var n := |EncodeTlv(ts[0])|;
    next := pos + n;
    assert b[pos..next] == b[pos..][..n];
    assert b[next..] == b[pos..][n..];
    TlvHead(b, pos, ts[0], indexed);
    TlvsFromStep(b, pos, indexed, ts[0], next);
  }

  lemma TlvsFromStep(b: seq<byte>, pos: nat, indexed: bool, t: Tlv, next: int)
    requires TlvAt(b, pos, indexed) == Some(Step(t, next))
    ensures TlvsFrom(b, pos, indexed) == [t] + TlvsFrom(b, next, indexed)
  {
  }

  /** A well-formed TLV written at pos is the TLV read there. */
  lemma TlvHead(b: seq<byte>, pos: nat, t: Tlv, indexed: bool)
    requires WellFormedTlv(t, indexed)
    requires pos + |EncodeTlv(t)| <= |b| && b[pos..pos + |EncodeTlv(t)|] == EncodeTlv(t)
    ensures TlvAt(b, pos, indexed) == Some(Step(t, pos + |EncodeTlv(t)|))
  {
    var h, e := HeaderOctets(t), EnterpriseOctets(t);
    var q, r := pos + |h|, pos + |h| + |e|;
    SliceThirds(b, pos, h, e, t.value);
    HeaderReads(b, pos, t, indexed);
    EnterpriseReads(b, q, t);
    TlvAtFields(b, pos, indexed, t, r);
  }

  /** Three runs of octets written one after the other at pos are each
    * where they were written. */
  lemma SliceThirds(b: seq<byte>, pos: nat, x: seq<byte>, y: seq<byte>, z: seq<byte>)
    requires pos + |x| + |y| + |z| <= |b| && b[pos..pos + |x| + |y| + |z|] == x + y + z
    ensures b[pos..pos + |x|] == x
    ensures b[pos + |x|..pos + |x| + |y|] == y
    ensures b[pos + |x| + |y|..pos + |x| + |y| + |z|] == z
  {
    var w := b[pos..pos + |x| + |y| + |z|];
    forall k | 0 <= k < |w|
      ensures b[pos + k] == (x + y + z)[k]
    {
      assert b[pos + k] == w[k];
    }
    assert b[pos..pos + |x|] == x by {
      forall k | 0 <= k < |x|
        ensures b[pos + k] == x[k]
      {
        assert (x + y + z)[k] == x[k];
      }
    }
    assert b[pos + |x|..pos + |x| + |y|] == y by {
      forall k | 0 <= k < |y|
        ensures b[pos + |x| + k] == y[k]
      {
        assert (x + y + z)[|x| + k] == y[k];
      }
    }
    assert b[pos + |x| + |y|..pos + |x| + |y| + |z|] == z by {
      forall k | 0 <= k < |z|
        ensures b[pos + |x| + |y| + k] == z[k]
      {
        assert (x + y + z)[|x| + |y| + k] == z[k];
      }
    }
  }

  /** The header words of a well-formed TLV read back as its fields. */
  lemma HeaderReads(b: seq<byte>, pos: nat, t: Tlv, indexed: bool)
    requires WellFormedTlv(t, indexed)
    requires pos + |HeaderOctets(t)| <= |b| && b[pos..pos + |HeaderOctets(t)|] == HeaderOctets(t)
    ensures |HeaderOctets(t)| == HeaderSize(indexed)
    ensures BE16(b, pos) == t.tlvType + (if t.isEnterprise then E_BIT else 0)
    ensures BE16(b, pos + HeaderSize(indexed) - 2) == t.length
    ensures indexed ==> BE16(b, pos + 2) == t.index.value
  {
    var h := HeaderOctets(t);
    var typeWord := WriteUInt16(t.tlvType + (if t.isEnterprise then E_BIT else 0));
    var lengthWord := WriteUInt16(t.length);
    var hdr := HeaderSize(indexed);
    assert b[pos] == h[0] == typeWord[0] && b[pos + 1] == h[1] == typeWord[1];
    assert b[pos + hdr - 2] == h[hdr - 2] == lengthWord[0] && b[pos + hdr - 1] == h[hdr - 1] == lengthWord[1];
    if indexed {
      var indexWord := WriteUInt16(t.index.value);
      assert b[pos + 2] == h[2] == indexWord[0] && b[pos + 3] == h[3] == indexWord[1];
    }
  }

  /** A buffer holding a TLV's header, enterprise number and value at pos
    * reads as that TLV. */
  lemma TlvAtFields(b: seq<byte>, pos: nat, indexed: bool, t: Tlv, start: nat)
    requires WellFormedTlv(t, indexed)
    requires start == pos + HeaderSize(indexed) + (if t.isEnterprise then 4 else 0)
    requires start + t.length <= |b| && b[start..start + t.length] == t.value
    requires BE16(b, pos) == t.tlvType + (if t.isEnterprise then E_BIT else 0)
    requires BE16(b, pos + HeaderSize(indexed) - 2) == t.length
    requires indexed ==> BE16(b, pos + 2) == t.index.value
    requires t.isEnterprise ==> BE32(b, pos + HeaderSize(indexed)) == t.enterpriseNumber.value
    ensures TlvAt(b, pos, indexed) == Some(Step(t, start + t.length))
  {
    var typeField := t.tlvType + (if t.isEnterprise then E_BIT else 0);
    DivUnique(typeField, E_BIT, if t.isEnterprise then 1 else 0, t.tlvType);
  }

  /** The enterprise number, when there is one, reads back. */
  lemma EnterpriseReads(b: seq<byte>, q: nat, t: Tlv)
    requires t.enterpriseNumber.Some? ==> 0 <= t.enterpriseNumber.value < TWO_32
    requires q + |EnterpriseOctets(t)| <= |b| && b[q..q + |EnterpriseOctets(t)|] == EnterpriseOctets(t)
    ensures |EnterpriseOctets(t)| == (if t.enterpriseNumber.Some? then 4 else 0)
    ensures t.enterpriseNumber.Some? ==> BE32(b, q) == t.enterpriseNumber.value
  {
    if t.enterpriseNumber.Some? {
      assert BE32(b, q) == BE32(EnterpriseOctets(t), 0);
    }
  }

  /** If a buffer cut short holds a whole TLV at pos, the whole buffer
    * holds the same TLV there. */
  lemma StepPrefix(b: seq<byte>, n: nat, pos: nat, indexed: bool)
    requires n <= |b| && TlvAt(b[..n], pos, indexed).Some?
    ensures TlvAt(b, pos, indexed) == TlvAt(b[..n], pos, indexed)
  {
    var c := b[..n];
    var hdr := HeaderSize(indexed);
    assert BE16(c, pos) == BE16(b, pos) && BE16(c, pos + hdr - 2) == BE16(b, pos + hdr - 2);
    if indexed {
      assert BE16(c, pos + 2) == BE16(b, pos + 2);
    }
    var isEnterprise := BE16(c, pos) >= E_BIT;
    if isEnterprise {
      assert BE32(c, pos + hdr) == BE32(b, pos + hdr);
    }
    var start := if isEnterprise then pos + hdr + 4 else pos + hdr;
    var length := BE16(c, pos + hdr - 2);
    assert start + length <= n;
    PrefixSlice(b, n, start, start + length);
  }

  lemma PrefixSlice(b: seq<byte>, n: nat, i: nat, j: nat)
    requires i <= j <= n <= |b|
    ensures b[..n][i..j] == b[i..j]
  {
    assert forall k :: 0 <= k < j - i ==> b[..n][i..j][k] == b[i + k];
  }

  /** A buffer cut short yields a prefix of the TLVs of the whole buffer:
    * a TLV whose enterprise number or value is cut off is never emitted
    * in part. */
  lemma {:induction false} TruncatedPrefix(b: seq<byte>, n: nat, pos: nat, indexed: bool)
    requires n <= |b|
    ensures var short, full := TlvsFrom(b[..n], pos, indexed), TlvsFrom(b, pos, indexed);
            |short| <= |full| && short == full[..|short|]
    decreases |b| - pos
  {
    var first := TlvAt(b[..n], pos, indexed);
    if first.Some? {
      StepPrefix(b, n, pos, indexed);
      TruncatedPrefix(b, n, first.value.next, indexed);
    }
  }

  // ---------------------------------------------------------------------
  // parseTlvs and parseIndexedTlvs
  // ---------------------------------------------------------------------

  /** The TLVs read from offset on; none when the offset is negative (the
    * first read throws, and the catch stops parsing). */
  function TlvsAt(buffer: seq<byte>, offset: int, indexed: bool): seq<Tlv>
  {
    if offset < 0 then [] else TlvsFrom(buffer, offset, indexed)
  }

  /** `typeField & 0x8000` and `typeField & 0x7fff`. */
  method ReadTypeField(typeField: int) returns (isEnterprise: bool, tlvType: int)
    requires 0 <= typeField < TWO_16
    ensures isEnterprise == (typeField >= E_BIT) && tlvType == typeField % E_BIT
  {
    EBitOfTypeField(typeField);
    TypeOfTypeField(typeField);
    isEnterprise := JsAnd(typeField, E_BIT) != 0;
    tlvType := JsAnd(typeField, TYPE_MASK);
  }

  /** One pass of the loop body of parseTlvs (indexed false) or
    * parseIndexedTlvs (indexed true) once the header fits: the type word,
    * the index word, the length word, the enterprise number, the value.
    * None stands for the `break` on a cut-off enterprise number or value. */
  method ReadTlv(buffer: seq<byte>, position: nat, indexed: bool) returns (step: Option<Step>)
    requires position + HeaderSize(indexed) <= |buffer|
    ensures step == TlvAt(buffer, position, indexed)
  {
    var at := position;
    var typeField := BE16(buffer, at);
    var isEnterprise, tlvType := ReadTypeField(typeField);
    at := at + 2;
    var index := None;
    if indexed {
      index := Some(BE16(buffer, at));
      at := at + 2;
    }
    var length := BE16(buffer, at);
    at := at + 2;
    var enterpriseNumber := None;
    if isEnterprise {
      if at + 4 > |buffer| {
        return None;
      }
      enterpriseNumber := Some(BE32(buffer, at));
      at := at + 4;
    }
    if at + length > |buffer| {
      return None;
    }
    var value := buffer[at..at + length];
    at := at + length;
    return Some(Step(Tlv(tlvType, index, length, value, isEnterprise, enterpriseNumber), at));
  }

  /** parseTlvs: 4-byte headers (type with the E-bit, length), an
    * enterprise number when the E-bit is set, then the value. */
  method ParseTlvs(buffer: seq<byte>, offset: int) returns (tlvs: seq<Tlv>)
    ensures tlvs == TlvsAt(buffer, offset, false)
  {
    tlvs := [];
    var position := offset;
    while position + 4 <= |buffer|
      invariant offset <= position
      invariant offset < 0 ==> position == offset && tlvs == []
      invariant tlvs + TlvsAt(buffer, position, false) == TlvsAt(buffer, offset, false)
      decreases |buffer| - position
    {
      if position < 0 {
        // readUInt16BE rejects a negative offset; the catch ends the loop
        break;
      }
      var step := ReadTlv(buffer, position, false);
      if step.None? {
        break;
      }
      tlvs := tlvs + [step.value.tlv];
      position := step.value.next;
    }
  }

  /** parseIndexedTlvs: as parseTlvs, with a 2-byte index between the
    * type and the length, so the header has 6 bytes. */
  method ParseIndexedTlvs(buffer: seq<byte>, offset: int) returns (tlvs: seq<Tlv>)
    ensures tlvs == TlvsAt(buffer, offset, true)
  {
    tlvs := [];
    var position := offset;
    while position + 6 <= |buffer|
      invariant offset <= position
      invariant offset < 0 ==> position == offset && tlvs == []
      invariant tlvs + TlvsAt(buffer, position, true) == TlvsAt(buffer, offset, true)
      decreases |buffer| - position
    {
      if position < 0 {
        // readUInt16BE rejects a negative offset; the catch ends the loop
        break;
      }
      var step := ReadTlv(buffer, position, true);
      if step.None? {
        break;
      }
      tlvs := tlvs + [step.value.tlv];
      position := step.value.next;
    }
  }

  // ---------------------------------------------------------------------
  // parseGroupTlv
  // ---------------------------------------------------------------------

  datatype Group = Group(groupIndex: int, nlriIndexes: seq<int>)

  /** parseGroupTlv: a 2-byte group index (reading it throws when the
    * value is shorter), then 2-byte NLRI indexes while two bytes remain;
    * an odd trailing byte is ignored. */
  method ParseGroupTlv(value: seq<byte>) returns (r: Outcome<Group>)
    ensures r.Threw? <==> |value| < 2
    ensures r.Returned? ==>
              && r.value.groupIndex == BE16(value, 0)
              && |r.value.nlriIndexes| == (|value| - 2) / 2
              && forall k :: 0 <= k < |r.value.nlriIndexes| ==> r.value.nlriIndexes[k] == BE16(value, 2 + 2 * k)
  {
    if |value| < 2 {
      return Threw;
    }
    var position := 0;
    var groupIndex := BE16(value, position);
    position := position + 2;
    var nlriIndexes := [];
    while position + 2 <= |value|
      invariant 2 <= position <= |value| && position % 2 == 0
      invariant |nlriIndexes| == (position - 2) / 2
      invariant forall k :: 0 <= k < |nlriIndexes| ==> nlriIndexes[k] == BE16(value, 2 + 2 * k)
      decreases |value| - position
    {
      var nlriIndex := BE16(value, position);
      nlriIndexes := nlriIndexes + [nlriIndex];
      position := position + 2;
    }
    return Returned(Group(groupIndex, nlriIndexes));
  }
}
