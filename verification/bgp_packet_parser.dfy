/** The BGP-4 message parser of the desktop tool: the header checks of
  * parseBgpPacket, and UPDATE bodies with their withdrawn routes, path
  * attributes and NLRI, AS_PATH segments and communities.
  *
  * The parser walks a Node Buffer with plain positions. Two JavaScript
  * behaviours decide what it does on short input and are modelled as
  * written: an index past the end reads `undefined` (a missing octet, which
  * turns a position into NaN once added to it), and readUInt16BE /
  * readUInt32BE past the end throw, which parseBgpPacket catches and
  * reports as an invalid packet. */
module BgpPacketParser {
  import opened Base
  import opened Bits
  import opened IpUtils

  // Message header, RFC 4271 section 4.1
  const BGP_HEAD_LEN: int := 19
  const BGP_MARKER_LEN: int := 16

  // Message types, RFC 4271 section 4.1 and RFC 2918 (ROUTE-REFRESH)
  const OPEN: int := 1
  const UPDATE: int := 2
  const NOTIFICATION: int := 3
  const KEEPALIVE: int := 4
  const ROUTE_REFRESH: int := 5

  // Path attribute flag and type codes: RFC 4271 section 4.3, RFC 1997
  // (COMMUNITY), RFC 4760 (MP_REACH_NLRI, MP_UNREACH_NLRI), RFC 9234 (OTC)
  const EXTENDED_LENGTH: int := 0x10
  const ATTR_ORIGIN: int := 1
  const ATTR_AS_PATH: int := 2
  const ATTR_NEXT_HOP: int := 3
  const ATTR_MED: int := 4
  const ATTR_LOCAL_PREF: int := 5
  const ATTR_ATOMIC_AGGREGATE: int := 6
  const ATTR_AGGREGATOR: int := 7
  const ATTR_COMMUNITY: int := 8
  const ATTR_MP_REACH_NLRI: int := 14
  const ATTR_MP_UNREACH_NLRI: int := 15
  const ATTR_OTC: int := 35

  /** Address family of IPv6, RFC 4760 section 3. */
  const AFI_IPV6: int := 2

  /** `buffer[i]`: the octet, or undefined past the end. */
  function ByteAt(b: seq<byte>, i: nat): Option<byte>
  {
    if i < |b| then Some(b[i]) else None
  }

  /** `buffer.subarray(start, start + n)`, which stops at the end. */
  function Subarray(b: seq<byte>, start: nat, n: nat): (r: seq<byte>)
    requires start <= |b|
    ensures |r| <= n
  {
    if start + n <= |b| then b[start..start + n] else b[start..]
  }

  // ---------------------------------------------------------------------
  // Withdrawn routes and NLRI: length-prefixed IPv4 prefixes
  // ---------------------------------------------------------------------

  /** A prefix as the parser reports it: formatIpv4Prefix's text and the
    * prefix length in bits. */
  datatype Prefix = Prefix(prefix: string, length: byte)

  datatype PrefixStep = PrefixStep(entry: Prefix, next: int)

  /** The prefix at pos: a length octet, then Math.ceil(length / 8)
    * octets. The text is formatIpv4Prefix of the octets present, which is
    * the computation ipv4BufferToString does. */
  function PrefixAt(b: seq<byte>, pos: nat): (r: PrefixStep)
    requires pos < |b|
    ensures r.entry.length == b[pos]
    ensures var n := r.next - pos - 1; 8 * n >= b[pos] && 8 * (n - 1) < b[pos]
  {
    var length := b[pos];
    var n := (length as int + 7) / 8;
    PrefixStep(Prefix(DottedDecimal(PrefixOctets(Subarray(b, pos + 1, n), length)), length), pos + 1 + n)
  }

  datatype PrefixScan = PrefixScan(entries: seq<Prefix>, next: int)

  function PrependPrefixes(entries: seq<Prefix>, r: Outcome<PrefixScan>): Outcome<PrefixScan>
  {
    match r
    case Threw => Threw
    case Returned(s) => Returned(PrefixScan(entries + s.entries, s.next))
  }

  /** The prefixes read from pos while the position is below end, and the
    * position after them. A length octet past the end of the buffer reads
    * undefined and turns the position into NaN: the loop stops, and the
    * readUInt16BE that follows the withdrawn routes throws. Threw stands
    * for that; a scan that ends at the end of the buffer never meets it. */
  function PrefixesFrom(b: seq<byte>, pos: nat, end: int): (r: Outcome<PrefixScan>)
    ensures r.Returned? ==> r.value.next >= pos
    ensures end <= |b| ==> r.Returned?
    decreases end - pos
  {
    if pos >= end then Returned(PrefixScan([], pos))
    else if pos >= |b| then Threw
    else
      var s := PrefixAt(b, pos);
      PrependPrefixes([s.entry], PrefixesFrom(b, s.next, end))
  }

  lemma PrependNothing(r: Outcome<PrefixScan>)
    ensures PrependPrefixes([], r) == r
  {
    if r.Returned? {
      assert [] + r.value.entries == r.value.entries;
    }
  }

  lemma PrependAppend(entries: seq<Prefix>, e: Prefix, r: Outcome<PrefixScan>)
    ensures PrependPrefixes(entries, PrependPrefixes([e], r)) == PrependPrefixes(entries + [e], r)
  {
    if r.Returned? {
      assert entries + ([e] + r.value.entries) == entries + [e] + r.value.entries;
    }
  }

  /** The body of the prefix loops of parseUpdateMessage. */
  method ReadPrefix(b: seq<byte>, position: nat) returns (entry: Prefix, next: int)
    requires position < |b|
    ensures PrefixStep(entry, next) == PrefixAt(b, position)
  {
    var prefixLength := b[position];
    var p := position + 1;
    var prefixBytes := (prefixLength as int + 7) / 8;  // Math.ceil(prefixLength / 8)
    var prefixBuffer := Subarray(b, p, prefixBytes);
    p := p + prefixBytes;
    var prefix := Ipv4BufferToString(prefixBuffer, prefixLength);
    return Prefix(prefix, prefixLength), p;
  }

  lemma PrefixesStep(b: seq<byte>, pos: nat, end: int)
    requires pos < end && pos < |b|
    ensures var s := PrefixAt(b, pos);
            PrefixesFrom(b, pos, end) == PrependPrefixes([s.entry], PrefixesFrom(b, s.next, end))
  {
  }

  /** The loop of parseUpdateMessage over the withdrawn routes, and the one
    * over the NLRI, which is the same code with the end of the buffer as
    * its end. */
  method ReadPrefixes(b: seq<byte>, start: nat, end: int) returns (r: Outcome<PrefixScan>)
    ensures r == PrefixesFrom(b, start, end)
  {
    var entries: seq<Prefix> := [];
    var position := start;
    PrependNothing(PrefixesFrom(b, start, end));
    while position < end
      invariant start <= position
      invariant PrependPrefixes(entries, PrefixesFrom(b, position, end)) == PrefixesFrom(b, start, end)
      decreases end - position
    {
      if position >= |b| {
        // prefixLength is undefined: position becomes NaN and the caller's
        // next readUInt16BE throws
        return Threw;
      }
      var entry, next := ReadPrefix(b, position);
      PrefixesStep(b, position, end);
      PrependAppend(entries, entry, PrefixesFrom(b, next, end));
      entries := entries + [entry];
      position := next;
    }
    assert entries + [] == entries;
    return Returned(PrefixScan(entries, position));
  }

  /** The octets of one prefix as a speaker sends it: the length in bits,
    * then the ceil(length / 8) octets that hold the prefix. */
  function EncodePrefix(octets: seq<byte>, length: byte): (r: seq<byte>)
    requires |octets| == (length + 7) / 8
  {
    [length] + octets
  }

  /** Reading a prefix back gives its length and the text of its octets. */
  lemma PrefixRoundTrip(p: seq<byte>, octets: seq<byte>, length: byte, rest: seq<byte>)
    requires |octets| == (length + 7) / 8
    ensures var b := p + EncodePrefix(octets, length) + rest;
            PrefixAt(b, |p|) == PrefixStep(Prefix(DottedDecimal(PrefixOctets(octets, length)), length),
                                           |p| + 1 + |octets|)
  {
    var b := p + EncodePrefix(octets, length) + rest;
    assert b[|p|] == length;
    assert Subarray(b, |p| + 1, |octets|) == octets;
  }

  // ---------------------------------------------------------------------
  // AS_PATH
  // ---------------------------------------------------------------------

  /** Items read in front of what the rest of a scan gives, unless the rest
    * throws. */
  function Prepend<T>(xs: seq<T>, r: Outcome<seq<T>>): Outcome<seq<T>>
  {
    match r
    case Threw => Threw
    case Returned(ys) => Returned(xs + ys)
  }

  lemma PrependEmpty<T>(r: Outcome<seq<T>>)
    ensures Prepend([], r) == r
  {
    if r.Returned? {
      assert [] + r.value == r.value;
    }
  }

  lemma PrependMore<T>(xs: seq<T>, x: T, r: Outcome<seq<T>>)
    ensures Prepend(xs, Prepend([x], r)) == Prepend(xs + [x], r)
  {
    if r.Returned? {
      assert xs + ([x] + r.value) == xs + [x] + r.value;
    }
  }

  datatype Segment = Segment(segmentType: byte, asNumbers: seq<int>)

  /** The AS numbers of a segment: count four-octet values from pos. */
  function NumbersAt(v: seq<byte>, pos: nat, count: nat): (r: seq<int>)
    requires pos + 4 * count <= |v|
    ensures |r| == count
  {
    seq(count, i requires 0 <= i < count => BE32(v, pos + 4 * i))
  }

  datatype SegmentRead = SegmentRead(segment: Segment, next: nat)

  /** The segment at pos: a type octet, a count octet, then count
    * four-octet AS numbers. A missing count octet reads undefined, which
    * runs the inner loop zero times; an AS number cut off by the end of
    * the value makes readUInt32BE throw. */
  function SegmentAt(v: seq<byte>, pos: nat): (r: Outcome<SegmentRead>)
    requires pos < |v|
    ensures r.Returned? ==> r.value.next >= pos + 2
  {
    var count: nat := if pos + 1 < |v| then v[pos + 1] else 0;
    var next := pos + 2 + 4 * count;
    if count > 0 && next > |v| then Threw
    else
      var numbers := if count == 0 then [] else NumbersAt(v, pos + 2, count);
      Returned(SegmentRead(Segment(v[pos], numbers), next))
  }

  /** The AS_PATH segments from pos to the end of the attribute value. */
  function SegmentsFrom(v: seq<byte>, pos: nat): (r: Outcome<seq<Segment>>)
    decreases |v| - pos
  {
    if pos >= |v| then Returned([])
    else
      match SegmentAt(v, pos)
      case Threw => Threw
      case Returned(s) => Prepend([s.segment], SegmentsFrom(v, s.next))
  }

  /** The inner loop of parseAsPath: count AS numbers from position. */
  method ReadAsNumbers(v: seq<byte>, start: nat, count: nat) returns (r: Outcome<seq<int>>)
    ensures r.Threw? <==> count > 0 && start + 4 * count > |v|
    ensures r.Returned? ==> r.value == if count == 0 then [] else NumbersAt(v, start, count)
  {
    var asNumbers: seq<int> := [];
    var position := start;
    for i := 0 to count
      invariant position == start + 4 * i
      invariant i > 0 ==> position <= |v|
      invariant asNumbers == seq(i, k requires 0 <= k < i => BE32(v, start + 4 * k))
    {
      if position + 4 > |v| {
        return Threw;
      }
      asNumbers := asNumbers + [BE32(v, position)];
      position := position + 4;
    }
    return Returned(asNumbers);
  }

  /** One turn of the segment loop of parseAsPath. */
  method ReadSegment(v: seq<byte>, position: nat) returns (r: Outcome<SegmentRead>)
    requires position < |v|
    ensures r == SegmentAt(v, position)
  {
    var segmentType := v[position];
    // an undefined segment length makes `i < segmentLength` false at once
    var segmentLength: nat := if position + 1 < |v| then v[position + 1] else 0;
    var asNumbers := ReadAsNumbers(v, position + 2, segmentLength);
    if asNumbers.Threw? {
      return Threw;
    }
    return Returned(SegmentRead(Segment(segmentType, asNumbers.value), position + 2 + 4 * segmentLength));
  }

  /** parseAsPath */
  method ParseAsPath(v: seq<byte>) returns (r: Outcome<seq<Segment>>)
    ensures r == SegmentsFrom(v, 0)
  {
    var segments: seq<Segment> := [];
    var position := 0;
    PrependEmpty(SegmentsFrom(v, 0));
    while position < |v|
      invariant Prepend(segments, SegmentsFrom(v, position)) == SegmentsFrom(v, 0)
      decreases |v| - position
    {
      var step := ReadSegment(v, position);
      if step.Threw? {
        return Threw;
      }
      PrependMore(segments, step.value.segment, SegmentsFrom(v, step.value.next));
      segments := segments + [step.value.segment];
      position := step.value.next;
    }
    assert segments + [] == segments;
    return Returned(segments);
  }

  predicate WellFormedSegment(s: Segment)
  {
    |s.asNumbers| < 256 && Words32(s.asNumbers)
  }

  /** Every value fits in 32 unsigned bits. */
  predicate Words32(ns: seq<int>)
  {
    forall k :: 0 <= k < |ns| ==> 0 <= ns[k] < TWO_32
  }

  predicate AllWellFormed(segments: seq<Segment>)
  {
    segments == [] || (WellFormedSegment(segments[0]) && AllWellFormed(segments[1..]))
  }

  /** Four big-endian octets per value, as writeUInt32 writes them. */
  function Octets32(ns: seq<int>): (r: seq<byte>)
    ensures |r| == 4 * |ns|
  {
    if ns == [] then [] else WriteUInt32(ns[0]) + Octets32(ns[1..])
  }

  /** One AS_PATH segment as RFC 4271 section 4.3 lays it out. */
  function SegmentOctets(s: Segment): (r: seq<byte>)
    requires WellFormedSegment(s)
    ensures |r| == 2 + 4 * |s.asNumbers|
  {
    [s.segmentType, |s.asNumbers| as byte] + Octets32(s.asNumbers)
  }

  function EncodeSegments(segments: seq<Segment>): seq<byte>
    requires AllWellFormed(segments)
  {
    if segments == [] then [] else SegmentOctets(segments[0]) + EncodeSegments(segments[1..])
  }

  /** Each segment consumes its two header octets and four octets per AS
    * number, so encoded segments read back as themselves. */
  lemma SegmentsRoundTrip(segments: seq<Segment>)
    requires AllWellFormed(segments)
    ensures SegmentsFrom(EncodeSegments(segments), 0) == Returned(segments)
  {
    var v := EncodeSegments(segments);
    assert v[0..] == v;
    SegmentsReadBack(v, 0, segments);
  }

  lemma {:induction false} SegmentsReadBack(v: seq<byte>, pos: nat, segments: seq<Segment>)
    requires AllWellFormed(segments)
    requires pos <= |v| && v[pos..] == EncodeSegments(segments)
    ensures SegmentsFrom(v, pos) == Returned(segments)
    decreases |segments|
  {
    if segments == [] {
      assert |v[pos..]| == 0;
    } else {
      var n := FirstSegmentReadBack(v, pos, segments);
      SegmentsReadBack(v, n, segments[1..]);
    }
  }

  /** The first segment of an encoding reads back, and reading goes on at
    * the encoding of the others. */
  lemma FirstSegmentReadBack(v: seq<byte>, pos: nat, segments: seq<Segment>) returns (n: nat)
    requires segments != [] && AllWellFormed(segments)
    requires pos <= |v| && v[pos..] == EncodeSegments(segments)
    ensures n <= |v| && v[n..] == EncodeSegments(segments[1..]) && AllWellFormed(segments[1..])
    ensures SegmentsFrom(v, n) == Returned(segments[1..]) ==> SegmentsFrom(v, pos) == Returned(segments)
  {
    var s := segments[0];
    n := pos + 2 + 4 * |s.asNumbers|;
    SplitEncoded(v, pos, s, segments[1..]);
    SegmentHead(v, pos, s);
    assert [s] + segments[1..] == segments;
    SegmentsUnfold(v, pos, s, n, segments[1..], segments);
  }

  /** The first segment of an encoding, and the encoding of the others
    * right after it. */
  lemma SplitEncoded(v: seq<byte>, pos: nat, s: Segment, others: seq<Segment>)
    requires WellFormedSegment(s) && AllWellFormed(others)
    requires pos <= |v| && v[pos..] == SegmentOctets(s) + EncodeSegments(others)
    ensures pos + 2 + 4 * |s.asNumbers| <= |v|
    ensures v[pos..pos + 2 + 4 * |s.asNumbers|] == SegmentOctets(s)
    ensures v[pos + 2 + 4 * |s.asNumbers|..] == EncodeSegments(others)
  {
    var n := |SegmentOctets(s)|;
    assert v[pos..][..n] == v[pos..pos + n];
    assert v[pos..][n..] == v[pos + n..];
  }

  lemma SegmentsUnfold(v: seq<byte>, pos: nat, s: Segment, next: nat, rest: seq<Segment>, all: seq<Segment>)
    requires pos < |v| && SegmentAt(v, pos) == Returned(SegmentRead(s, next)) && all == [s] + rest
    ensures SegmentsFrom(v, next) == Returned(rest) ==> SegmentsFrom(v, pos) == Returned(all)
  {
  }

  /** A segment written at pos is read at pos, and reading goes on right
    * after its last AS number. */
  lemma SegmentHead(v: seq<byte>, pos: nat, s: Segment)
    requires WellFormedSegment(s)
    requires pos + 2 + 4 * |s.asNumbers| <= |v| && v[pos..pos + 2 + 4 * |s.asNumbers|] == SegmentOctets(s)
    ensures pos < |v| && SegmentAt(v, pos) == Returned(SegmentRead(s, pos + 2 + 4 * |s.asNumbers|))
  {
    var ns := s.asNumbers;
    var n := 2 + 4 * |ns|;
    var w := v[pos..pos + n];
    assert v[pos] == w[0] == s.segmentType;
    assert v[pos + 1] == w[1] == |ns|;
    if ns != [] {
      assert v[pos + 2..pos + n] == w[2..] == Octets32(ns);
      SegmentNumbers(v, pos + 2, ns);
    }
  }

  lemma SegmentNumbers(v: seq<byte>, pos: nat, ns: seq<int>)
    requires Words32(ns) && pos + 4 * |ns| <= |v| && v[pos..pos + 4 * |ns|] == Octets32(ns)
    ensures NumbersAt(v, pos, |ns|) == ns
  {
    Words32At(v, pos, ns);
    NumbersBack(v, pos, ns);
  }

  /** The AS numbers read at pos are the values found at their offsets. */
  lemma NumbersBack(v: seq<byte>, pos: nat, ns: seq<int>)
    requires pos + 4 * |ns| <= |v|
    requires forall i :: 0 <= i < |ns| ==> BE32(v, pos + 4 * i) == ns[i]
    ensures NumbersAt(v, pos, |ns|) == ns
  {
    var numbers := NumbersAt(v, pos, |ns|);
    forall i | 0 <= i < |ns|
      ensures numbers[i] == ns[i]
    {
      assert numbers[i] == BE32(v, pos + 4 * i);
    }
  }

  /** Values written at pos read back at their offsets. */
  lemma {:induction false} Words32At(v: seq<byte>, pos: nat, ns: seq<int>)
    requires Words32(ns)
    requires pos + 4 * |ns| <= |v| && v[pos..pos + 4 * |ns|] == Octets32(ns)
    ensures forall i :: 0 <= i < |ns| ==> BE32(v, pos + 4 * i) == ns[i]
    decreases |ns|
  {
    if ns != [] {
      var w := v[pos..pos + 4 * |ns|];
      assert v[pos + 4..pos + 4 * |ns|] == w[4..];
      assert w[4..] == Octets32(ns[1..]);
      Words32At(v, pos + 4, ns[1..]);
      WordAt(v, pos, ns[0]);
      forall i | 1 <= i < |ns|
        ensures BE32(v, pos + 4 * i) == ns[i]
      {
        assert pos + 4 * i == pos + 4 + 4 * (i - 1);
      }
    }
  }

  lemma WordAt(v: seq<byte>, pos: nat, n: int)
    requires 0 <= n < TWO_32
    requires pos + 4 <= |v| && v[pos..pos + 4] == WriteUInt32(n)
    ensures BE32(v, pos) == n
  {
    WriteUInt32Inverse(n);
    assert BE32(v, pos) == BE32(v[pos..pos + 4], 0);
  }

  // ---------------------------------------------------------------------
  // COMMUNITY (RFC 1997)
  // ---------------------------------------------------------------------

  /** A community and its text: the high and the low 16-bit halves of the
    * value, joined by ':'. */
  datatype Community = Community(value: int, formatted: string)

  function CommunityOf(value: int): Community
    requires 0 <= value < TWO_32
  {
    Community(value, Decimal(value / TWO_16) + ":" + Decimal(value % TWO_16))
  }

  /** The communities from offset i, four octets each; a value cut off by
    * the end makes readUInt32BE throw. */
  function CommunitiesFrom(v: seq<byte>, i: nat): (r: Outcome<seq<Community>>)
    decreases |v| - i
  {
    if i >= |v| then Returned([])
    else if i + 4 > |v| then Threw
    else Prepend([CommunityOf(BE32(v, i))], CommunitiesFrom(v, i + 4))
  }

  /** The body of the loop of parseCommunities: the halves by shift and
    * mask, which SixteenBitHalves shows to be the quotient and the
    * remainder by 2^16. */
  method ReadCommunity(value: int) returns (c: Community)
    requires 0 <= value < TWO_32
    ensures c == CommunityOf(value)
  {
    SixteenBitHalves(value);
    var highOrder := JsAnd(JsShr(value, 16), 0xffff);
    var lowOrder := JsAnd(value, 0xffff);
    return Community(value, Decimal(highOrder) + ":" + Decimal(lowOrder));
  }

  lemma CommunitiesStep(v: seq<byte>, i: nat)
    requires i + 4 <= |v|
    ensures CommunitiesFrom(v, i) == Prepend([CommunityOf(BE32(v, i))], CommunitiesFrom(v, i + 4))
  {
  }

  /** parseCommunities */
  method ParseCommunities(v: seq<byte>) returns (r: Outcome<seq<Community>>)
    ensures r == CommunitiesFrom(v, 0)
  {
    var communities: seq<Community> := [];
    var i := 0;
    PrependEmpty(CommunitiesFrom(v, 0));
    while i < |v|
      invariant Prepend(communities, CommunitiesFrom(v, i)) == CommunitiesFrom(v, 0)
      decreases |v| - i
    {
      if i + 4 > |v| {
        return Threw;
      }
      var community := ReadCommunity(BE32(v, i));
      CommunitiesStep(v, i);
      PrependMore(communities, community, CommunitiesFrom(v, i + 4));
      communities := communities + [community];
      i := i + 4;
    }
    assert communities + [] == communities;
    return Returned(communities);
  }

  /** The attribute value parses exactly when its length is a multiple of
    * four, and then holds one community per four octets. */
  lemma {:induction false} CommunitiesLength(v: seq<byte>, i: nat)
    requires i <= |v|
    ensures CommunitiesFrom(v, i).Returned? <==> (|v| - i) % 4 == 0
    ensures CommunitiesFrom(v, i).Returned? ==> 4 * |CommunitiesFrom(v, i).value| == |v| - i
    decreases |v| - i
  {
    var n := |v| - i;
    if i + 4 <= |v| {
      CommunitiesLength(v, i + 4);
      CommunitiesStep(v, i);
      assert (n - 4) % 4 == n % 4;
    } else if i < |v| {
      assert CommunitiesFrom(v, i) == Threw;
    } else {
      assert CommunitiesFrom(v, i) == Returned([]);
    }
  }

  /** The communities of a list of 32-bit values. */
  function CommunitiesOf(values: seq<int>): seq<Community>
    requires Words32(values)
  {
    seq(|values|, k requires 0 <= k < |values| => CommunityOf(values[k]))
  }

  /** Values written four octets each read back as their communities. */
  lemma CommunitiesRoundTrip(values: seq<int>)
    requires Words32(values)
    ensures CommunitiesFrom(Octets32(values), 0) == Returned(CommunitiesOf(values))
  {
    var v := Octets32(values);
    assert v[0..] == v;
    CommunitiesReadBack(v, 0, values);
  }

  lemma {:induction false} CommunitiesReadBack(v: seq<byte>, pos: nat, values: seq<int>)
    requires Words32(values)
    requires pos <= |v| && v[pos..] == Octets32(values)
    ensures CommunitiesFrom(v, pos) == Returned(CommunitiesOf(values))
    decreases |values|
  {
    if values != [] {
      assert v[pos..pos + 4] == v[pos..][..4];
      assert v[pos + 4..] == v[pos..][4..];
      WordAt(v, pos, values[0]);
      CommunitiesReadBack(v, pos + 4, values[1..]);
      CommunitiesStep(v, pos);
      assert CommunitiesOf(values) == [CommunityOf(values[0])] + CommunitiesOf(values[1..]);
    } else {
      assert CommunitiesOf(values) == [];
    }
  }

  // ---------------------------------------------------------------------
  // Path attributes
  // ---------------------------------------------------------------------

  /** The decoded part of an attribute that the model keeps: AS_PATH
    * segments, communities, the number of MED / LOCAL_PREF / OTC, the AS
    * of AGGREGATOR, the AFI and SAFI of MP_REACH_NLRI / MP_UNREACH_NLRI
    * (the SAFI octet is undefined when the value is two octets long). */
  datatype Detail =
    | NoDetail
    | Segments(segments: seq<Segment>)
    | Communities(communities: seq<Community>)
    | Number(number: int)
    | AggregatorAs(asNumber: int)
    | Family(afi: int, safi: Option<byte>)

  datatype Attribute = Attribute(flags: Option<byte>, typeCode: Option<byte>, length: Option<int>,
                                 value: seq<byte>, detail: Detail)

  /** The Extended Length bit of the flags octet (bit 4, 0x10). */
  predicate IsExtended(flags: Option<byte>)
  {
    flags.Some? && Bit(flags.value, 4)
  }

  /** What the switch over the type code decodes, and where it throws:
    * readUInt32BE(0) on a value under four octets (MED, LOCAL_PREF, OTC),
    * readUInt16BE(0) on one under two (AGGREGATOR, MP_REACH_NLRI,
    * MP_UNREACH_NLRI), and the eight readUInt16BE of an IPv6 next hop,
    * which need octets 4 to 19 of MP_REACH_NLRI. */
  function DetailOf(typeCode: Option<byte>, v: seq<byte>): Outcome<Detail>
  {
    if typeCode.None? then Returned(NoDetail)
    else
      var t := typeCode.value;
      if t == ATTR_AS_PATH then
        match SegmentsFrom(v, 0)
        case Threw => Threw
        case Returned(s) => Returned(Segments(s))
      else if t == ATTR_MED || t == ATTR_LOCAL_PREF || t == ATTR_OTC then
        if |v| < 4 then Threw else Returned(Number(BE32(v, 0)))
      else if t == ATTR_AGGREGATOR then
        if |v| < 2 then Threw else Returned(AggregatorAs(BE16(v, 0)))
      else if t == ATTR_COMMUNITY then
        match CommunitiesFrom(v, 0)
        case Threw => Threw
        case Returned(c) => Returned(Communities(c))
      else if t == ATTR_MP_REACH_NLRI then
        if |v| < 2 || (BE16(v, 0) == AFI_IPV6 && |v| < 20) then Threw else Returned(Family(BE16(v, 0), ByteAt(v, 2)))
      else if t == ATTR_MP_UNREACH_NLRI then
        if |v| < 2 then Threw else Returned(Family(BE16(v, 0), ByteAt(v, 2)))
      else Returned(NoDetail)
  }

  /** One attribute and the position after it; None is the NaN position an
    * undefined length leaves behind, which ends the attribute loop and
    * skips the NLRI loop. */
  datatype AttrStep = AttrStep(attribute: Attribute, next: Option<nat>)

  /** The attribute at pos: flags, type code, a two-octet length when the
    * Extended Length flag is set and a one-octet length otherwise, then
    * the value. */
  function AttributeAt(b: seq<byte>, pos: nat): (r: Outcome<AttrStep>)
    ensures r.Returned? && r.value.next.Some? ==> pos < |b|
    ensures r.Returned? && r.value.next.Some? && IsExtended(ByteAt(b, pos)) ==>
              pos + 4 <= |b| && r.value.next.value == pos + 4 + BE16(b, pos + 2)
    ensures r.Returned? && r.value.next.Some? && !IsExtended(ByteAt(b, pos)) ==>
              pos + 3 <= |b| && r.value.next.value == pos + 3 + b[pos + 2]
  {
    var flags := ByteAt(b, pos);
    var typeCode := ByteAt(b, pos + 1);
    var p := pos + 2;
    if IsExtended(flags) && p + 2 > |b| then Threw
    else
      var length: Option<int> :=
        if IsExtended(flags) then Some(BE16(b, p)) else ByteAt(b, p);
      var q := if IsExtended(flags) then p + 2 else p + 1;
      var value := if length.Some? then Subarray(b, q, length.value) else [];
      match DetailOf(typeCode, value)
      case Threw => Threw
      case Returned(d) =>
        Returned(AttrStep(Attribute(flags, typeCode, length, value, d),
                          if length.Some? then Some(q + length.value) else None))
  }

  datatype AttrScan = AttrScan(attributes: seq<Attribute>, next: Option<nat>)

  function PrependAttributes(attributes: seq<Attribute>, r: Outcome<AttrScan>): Outcome<AttrScan>
  {
    match r
    case Threw => Threw
    case Returned(s) => Returned(AttrScan(attributes + s.attributes, s.next))
  }

  /** The attributes read from pos while the position is below end. */
  function AttributesFrom(b: seq<byte>, pos: nat, end: int): (r: Outcome<AttrScan>)
    decreases end - pos
  {
    if pos >= end then Returned(AttrScan([], Some(pos)))
    else
      match AttributeAt(b, pos)
      case Threw => Threw
      case Returned(s) =>
        if s.next.None? then Returned(AttrScan([s.attribute], None))
        else PrependAttributes([s.attribute], AttributesFrom(b, s.next.value, end))
  }

  /** `(flags & EXTENDED_LENGTH) !== 0` tests bit 4 of the flags; undefined
    * flags count as zero. */
  lemma ExtendedFlag(flags: byte)
    ensures (JsAnd(flags, EXTENDED_LENGTH) != 0) == Bit(flags, 4)
  {
    Pow2Values();
    AndPowerBit(flags, 4);
    AndBound(flags, EXTENDED_LENGTH);
    SmallValue(flags);
    SmallValue(EXTENDED_LENGTH);
    SmallValue(And(flags, EXTENDED_LENGTH));
  }

  /** The switch over the type code of one attribute. */
  method DecodeAttribute(typeCode: Option<byte>, value: seq<byte>) returns (r: Outcome<Detail>)
    ensures r == DetailOf(typeCode, value)
  {
    if typeCode.None? {
      return Returned(NoDetail);
    }
    var t := typeCode.value;
    if t == ATTR_AS_PATH {
      var segments := ParseAsPath(value);
      if segments.Threw? {
        return Threw;
      }
      return Returned(Segments(segments.value));
    } else if t == ATTR_MED || t == ATTR_LOCAL_PREF || t == ATTR_OTC {
      if |value| < 4 {
        return Threw;
      }
      return Returned(Number(BE32(value, 0)));
    } else if t == ATTR_AGGREGATOR {
      if |value| < 2 {
        return Threw;
      }
      return Returned(AggregatorAs(BE16(value, 0)));
    } else if t == ATTR_COMMUNITY {
      var communities := ParseCommunities(value);
      if communities.Threw? {
        return Threw;
      }
      return Returned(Communities(communities.value));
    } else if t == ATTR_MP_REACH_NLRI || t == ATTR_MP_UNREACH_NLRI {
      if |value| < 2 {
        return Threw;
      }
      var afi := BE16(value, 0);
      if t == ATTR_MP_REACH_NLRI && afi == AFI_IPV6 && |value| < 20 {
        // formatIpv6Address(value.subarray(4, 20)) reads eight 16-bit words
        return Threw;
      }
      var safi := ByteAt(value, 2);
      return Returned(Family(afi, safi));
    }
    return Returned(NoDetail);
  }

  /** One turn of the attribute loop of parseUpdateMessage. */
  method ReadAttribute(b: seq<byte>, position: nat) returns (r: Outcome<AttrStep>)
    ensures r == AttributeAt(b, position)
  {
    var flags := ByteAt(b, position);
    var typeCode := ByteAt(b, position + 1);
    var p := position + 2;
    var extendedLength := false;
    if flags.Some? {
      ExtendedFlag(flags.value);
      extendedLength := JsAnd(flags.value, EXTENDED_LENGTH) != 0;
    }
    var attributeLength: Option<int>;
    if extendedLength {
      if p + 2 > |b| {
        return Threw;
      }
      attributeLength := Some(BE16(b, p));
      p := p + 2;
    } else {
      attributeLength := ByteAt(b, p);
      p := p + 1;
    }
    var value: seq<byte> := [];
    var next: Option<nat> := None;
    if attributeLength.Some? {
      value := Subarray(b, p, attributeLength.value);
      next := Some(p + attributeLength.value);
    }
    var detail := DecodeAttribute(typeCode, value);
    if detail.Threw? {
      return Threw;
    }
    return Returned(AttrStep(Attribute(flags, typeCode, attributeLength, value, detail.value), next));
  }

  lemma PrependNoAttributes(r: Outcome<AttrScan>)
    ensures PrependAttributes([], r) == r
  {
    if r.Returned? {
      assert [] + r.value.attributes == r.value.attributes;
    }
  }

  lemma PrependAttributesAppend(attributes: seq<Attribute>, a: Attribute, r: Outcome<AttrScan>)
    ensures PrependAttributes(attributes, PrependAttributes([a], r)) == PrependAttributes(attributes + [a], r)
  {
    if r.Returned? {
      assert attributes + ([a] + r.value.attributes) == attributes + [a] + r.value.attributes;
    }
  }

  /** The attribute loop of parseUpdateMessage. */
  method ReadAttributes(b: seq<byte>, start: nat, end: int) returns (r: Outcome<AttrScan>)
    ensures r == AttributesFrom(b, start, end)
  {
    var attributes: seq<Attribute> := [];
    var position := start;
    PrependNoAttributes(AttributesFrom(b, start, end));
    while position < end
      invariant start <= position
      invariant PrependAttributes(attributes, AttributesFrom(b, position, end)) == AttributesFrom(b, start, end)
      decreases end - position
    {
      var step := ReadAttribute(b, position);
      if step.Threw? {
        return Threw;
      }
      if step.value.next.None? {
        // the position is NaN: `position < pathAttributesEnd` is false
        assert AttributesFrom(b, position, end) == Returned(AttrScan([step.value.attribute], None));
        return Returned(AttrScan(attributes + [step.value.attribute], None));
      }
      PrependAttributesAppend(attributes, step.value.attribute, AttributesFrom(b, step.value.next.value, end));
      attributes := attributes + [step.value.attribute];
      position := step.value.next.value;
    }
    assert attributes + [] == attributes;
    return Returned(AttrScan(attributes, Some(position)));
  }

  // ---------------------------------------------------------------------
  // UPDATE
  // ---------------------------------------------------------------------

  datatype Update = Update(withdrawnRoutesLength: int, withdrawnRoutes: seq<Prefix>,
                           pathAttributesLength: int, pathAttributes: seq<Attribute>, nlri: seq<Prefix>)

  /** parseUpdateMessage on the whole buffer: the withdrawn routes field,
    * the path attributes field, then NLRI up to the end of the buffer (not
    * of the length the header declares). */
  function UpdateOf(b: seq<byte>): Outcome<Update>
  {
    if |b| < BGP_HEAD_LEN + 2 then Threw
    else
      var withdrawnRoutesLength := BE16(b, BGP_HEAD_LEN);
      var start := BGP_HEAD_LEN + 2;
      match PrefixesFrom(b, start, start + withdrawnRoutesLength)
      case Threw => Threw
      case Returned(w) => UpdateAfterWithdrawn(b, withdrawnRoutesLength, w)
  }

  /** The rest of parseUpdateMessage once the withdrawn routes are read. */
  function UpdateAfterWithdrawn(b: seq<byte>, withdrawnRoutesLength: int, w: PrefixScan): Outcome<Update>
    requires w.next >= 0
  {
    if w.next + 2 > |b| then Threw
    else UpdateWith(b, withdrawnRoutesLength, w, BE16(b, w.next), AttributesField(b, w.next))
  }

  /** The path attributes field whose two-octet length is at `next`: the
    * attributes read from after the length up to the length's end. */
  function AttributesField(b: seq<byte>, next: nat): Outcome<AttrScan>
    requires next + 2 <= |b|
  {
    AttributesFrom(b, next + 2, next + 2 + BE16(b, next))
  }

  /** The message once its path attributes are read. */
  function UpdateWith(b: seq<byte>, withdrawnRoutesLength: int, w: PrefixScan, pathAttributesLength: int,
                      attributes: Outcome<AttrScan>): Outcome<Update>
  {
    match attributes
    case Threw => Threw
    case Returned(a) =>
      Returned(Update(withdrawnRoutesLength, w.entries, pathAttributesLength, a.attributes, NlriAfter(b, a.next)))
  }

  /** The NLRI, read from where the attributes end to the end of the
    * buffer; none when the attributes left a NaN position. */
  function NlriAfter(b: seq<byte>, next: Option<nat>): seq<Prefix>
  {
    if next.None? then [] else PrefixesFrom(b, next.value, |b|).value.entries
  }

  /** parseUpdateMessage */
  method ParseUpdateMessage(b: seq<byte>) returns (r: Outcome<Update>)
    ensures r == UpdateOf(b)
  {
    if BGP_HEAD_LEN + 2 > |b| {
      return Threw;
    }
    var withdrawnRoutesLength := BE16(b, BGP_HEAD_LEN);
    var withdrawn := ReadPrefixes(b, BGP_HEAD_LEN + 2, BGP_HEAD_LEN + 2 + withdrawnRoutesLength);
    UpdateIs(b, withdrawnRoutesLength, withdrawn);
    if withdrawn.Threw? || withdrawn.value.next + 2 > |b| {
      return Threw;
    }
    r := ReadAfterWithdrawn(b, withdrawnRoutesLength, withdrawn.value);
  }

  lemma UpdateIs(b: seq<byte>, withdrawnRoutesLength: int, withdrawn: Outcome<PrefixScan>)
    requires BGP_HEAD_LEN + 2 <= |b| && withdrawnRoutesLength == BE16(b, BGP_HEAD_LEN)
    requires withdrawn == PrefixesFrom(b, BGP_HEAD_LEN + 2, BGP_HEAD_LEN + 2 + withdrawnRoutesLength)
    ensures withdrawn.Threw? ==> UpdateOf(b) == Threw
    ensures withdrawn.Returned? ==> withdrawn.value.next >= 0 && UpdateOf(b) == UpdateAfterWithdrawn(b, withdrawnRoutesLength, withdrawn.value)
    ensures withdrawn.Returned? && withdrawn.value.next + 2 > |b| ==> UpdateOf(b) == Threw
  {
  }

  /** parseUpdateMessage from the path attributes length on. */
  method ReadAfterWithdrawn(b: seq<byte>, withdrawnRoutesLength: int, w: PrefixScan) returns (r: Outcome<Update>)
    requires w.next >= 0 && w.next + 2 <= |b|
    ensures r == UpdateAfterWithdrawn(b, withdrawnRoutesLength, w)
  {
    var attributes := ReadAttributesField(b, w.next);
    r := FinishUpdate(b, withdrawnRoutesLength, w, BE16(b, w.next), attributes);
  }

  /** The path attributes length, then the attribute loop up to its end. */
  method ReadAttributesField(b: seq<byte>, next: nat) returns (r: Outcome<AttrScan>)
    requires next + 2 <= |b|
    ensures r == AttributesField(b, next)
  {
    var pathAttributesLength := BE16(b, next);
    r := ReadAttributes(b, next + 2, next + 2 + pathAttributesLength);
  }

  /** parseUpdateMessage once the attribute loop has ended. */
  method FinishUpdate(b: seq<byte>, withdrawnRoutesLength: int, w: PrefixScan, pathAttributesLength: int,
                      attributes: Outcome<AttrScan>) returns (r: Outcome<Update>)
    ensures r == UpdateWith(b, withdrawnRoutesLength, w, pathAttributesLength, attributes)
  {
    if attributes.Threw? {
      return Threw;
    }
    var nlri := ReadNlri(b, attributes.value.next);
    r := Returned(Update(withdrawnRoutesLength, w.entries, pathAttributesLength,
                         attributes.value.attributes, nlri));
  }

  /** The NLRI loop of parseUpdateMessage, skipped from a NaN position. */
  method ReadNlri(b: seq<byte>, next: Option<nat>) returns (nlri: seq<Prefix>)
    ensures nlri == NlriAfter(b, next)
  {
    nlri := [];
    if next.Some? {
      // the loop runs while position < buffer.length, so it never throws
      var scan := ReadPrefixes(b, next.value, |b|);
      nlri := scan.value.entries;
    }
  }

  // ---------------------------------------------------------------------
  // OPEN: fixed fields and capabilities
  // ---------------------------------------------------------------------

  // Optional parameter type Capabilities (RFC 5492 section 4) and the
  // capability codes of Multiprotocol Extensions (RFC 4760 section 8),
  // four-octet AS numbers (RFC 6793 section 3) and BGP Role (RFC 9234
  // section 4.1)
  const OPT_CAPABILITIES: byte := 2
  const CAP_MULTIPROTOCOL: byte := 1
  const CAP_FOUR_OCTET_AS: byte := 65
  const CAP_BGP_ROLE: byte := 9

  /** What the parser adds to a capability beyond its code and length. */
  datatype CapabilityValue =
    | Plain
    | Multiprotocol(afi: int, safi: Option<byte>)
    | FourOctetAs(as4: int)
    | Role(role: Option<byte>)

  /** A capability as reported: its code and length octets (undefined past
    * the end of the buffer) and the value read for its code. */
  datatype Capability = Capability(code: Option<byte>, length: Option<byte>, value: CapabilityValue)

  /** The capability at pos. The Multiprotocol and four-octet AS values are
    * read with readUInt16BE / readUInt32BE, which throw past the end; the
    * other octets read undefined there. */
  function CapabilityAt(b: seq<byte>, pos: nat): (r: Outcome<Capability>)
    ensures r.Threw? <==>
              pos + 1 < |b| && b[pos + 1] >= 4 &&
              ((b[pos] == CAP_MULTIPROTOCOL && pos + 4 > |b|) || (b[pos] == CAP_FOUR_OCTET_AS && pos + 6 > |b|))
    ensures r.Returned? ==> r.value.code == ByteAt(b, pos) && r.value.length == ByteAt(b, pos + 1)
    ensures r.Returned? && pos + 1 < |b| && b[pos] == CAP_BGP_ROLE && b[pos + 1] >= 1 ==>
              r.value.value == Role(ByteAt(b, pos + 2))
  {
    var code, length, at := ByteAt(b, pos), ByteAt(b, pos + 1), pos + 2;
    if length.None? then Returned(Capability(code, length, Plain))
    else if code.value == CAP_MULTIPROTOCOL && length.value >= 4 then
      if at + 2 > |b| then Threw
      else Returned(Capability(code, length, Multiprotocol(BE16(b, at), ByteAt(b, at + 3))))
    else if code.value == CAP_FOUR_OCTET_AS && length.value >= 4 then
      if at + 4 > |b| then Threw
      else Returned(Capability(code, length, FourOctetAs(BE32(b, at))))
    else if code.value == CAP_BGP_ROLE && length.value >= 1 then
      Returned(Capability(code, length, Role(ByteAt(b, at))))
    else Returned(Capability(code, length, Plain))
  }

  /** The capability loop from pos while the position is below end: each
    * capability is pushed and the position moves past its value. A length
    * octet past the end reads undefined, the position becomes NaN and the
    * loop ends after pushing that capability. */
  function CapabilitiesFrom(b: seq<byte>, pos: nat, end: int): Outcome<seq<Capability>>
    decreases end - pos
  {
    if pos >= end then Returned([])
    else
      match CapabilityAt(b, pos)
      case Threw => Threw
      case Returned(c) =>
        if c.length.None? then Returned([c])
        else Prepend([c], CapabilitiesFrom(b, pos + 2 + c.length.value, end))
  }

  /** The optional parameter loop from pos while the position is below end:
    * a Capabilities parameter contributes its capabilities, any other type
    * is skipped. An undefined parameter length makes the position NaN and
    * ends the loop. */
  function ParametersFrom(b: seq<byte>, pos: nat, end: int): Outcome<seq<Capability>>
    decreases end - pos
  {
    if pos >= end then Returned([])
    else
      match ByteAt(b, pos + 1)
      case None => Returned([])
      case Some(paramLen) =>
        var caps := if b[pos] == OPT_CAPABILITIES then CapabilitiesFrom(b, pos + 2, pos + 2 + paramLen)
                    else Returned([]);
        match caps
        case Threw => Threw
        case Returned(cs) => Prepend(cs, ParametersFrom(b, pos + 2 + paramLen, end))
  }

  /** parseOpenMessage: version, AS, hold time (the two readUInt16BE throw
    * on a buffer shorter than 24 octets), the four router id octets, the
    * optional parameters length and the capabilities. */
  function OpenOf(b: seq<byte>): (r: Outcome<Body>)
    requires |b| >= BGP_HEAD_LEN
    ensures r.Returned? ==> |b| >= BGP_HEAD_LEN + 5 && r.value.OpenBody? && r.value.version == b[BGP_HEAD_LEN] &&
                            r.value.asn == BE16(b, BGP_HEAD_LEN + 1) && r.value.holdTime == BE16(b, BGP_HEAD_LEN + 3)
    ensures |b| < BGP_HEAD_LEN + 5 ==> r.Threw?
  {
    if |b| < BGP_HEAD_LEN + 5 then Threw
    else
      var optParamLen := ByteAt(b, BGP_HEAD_LEN + 9);
      var start := BGP_HEAD_LEN + 10;
      var caps := if optParamLen.Some? && optParamLen.value > 0 then ParametersFrom(b, start, start + optParamLen.value)
                  else Returned([]);
      match caps
      case Threw => Threw
      case Returned(cs) =>
        Returned(OpenBody(b[BGP_HEAD_LEN], BE16(b, BGP_HEAD_LEN + 1), BE16(b, BGP_HEAD_LEN + 3),
                          [ByteAt(b, BGP_HEAD_LEN + 5), ByteAt(b, BGP_HEAD_LEN + 6),
                           ByteAt(b, BGP_HEAD_LEN + 7), ByteAt(b, BGP_HEAD_LEN + 8)],
                          optParamLen, cs))
  }

  /** The value parseOpenMessage reads for the capability at pos. */
  method ReadCapability(b: seq<byte>, pos: nat) returns (r: Outcome<Capability>)
    ensures r == CapabilityAt(b, pos)
  {
    var capCode := ByteAt(b, pos);
    var capLen := ByteAt(b, pos + 1);
    var tempPosition := pos + 2;
    var value := Plain;
    if capLen.Some? {
      if capCode.value == CAP_MULTIPROTOCOL && capLen.value >= 4 {
        if tempPosition + 2 > |b| {
          return Threw;
        }
        var afi := BE16(b, tempPosition);
        tempPosition := tempPosition + 3;  // the AFI, then a reserved octet
        value := Multiprotocol(afi, ByteAt(b, tempPosition));
      } else if capCode.value == CAP_FOUR_OCTET_AS && capLen.value >= 4 {
        if tempPosition + 4 > |b| {
          return Threw;
        }
        value := FourOctetAs(BE32(b, tempPosition));
      } else if capCode.value == CAP_BGP_ROLE && capLen.value >= 1 {
        value := Role(ByteAt(b, tempPosition));
      }
    }
    r := Returned(Capability(capCode, capLen, value));
  }

  /** The inner loop of parseOpenMessage, over one Capabilities parameter. */
  method ReadCapabilities(b: seq<byte>, start: nat, end: int) returns (r: Outcome<seq<Capability>>)
    ensures r == CapabilitiesFrom(b, start, end)
  {
    var capabilities: seq<Capability> := [];
    var capPosition := start;
    PrependEmpty(CapabilitiesFrom(b, start, end));
    while capPosition < end
      invariant Prepend(capabilities, CapabilitiesFrom(b, capPosition, end)) == CapabilitiesFrom(b, start, end)
      decreases end - capPosition
    {
      var capability := ReadCapability(b, capPosition);
      if capability.Threw? {
        return Threw;
      }
      var c := capability.value;
      if c.length.None? {
        // capPosition + undefined is NaN: the loop ends
        capabilities := capabilities + [c];
        break;
      }
      var next := capPosition + 2 + c.length.value;
      PrependMore(capabilities, c, CapabilitiesFrom(b, next, end));
      capabilities := capabilities + [c];
      capPosition := next;
    }
    if capPosition >= end {
      assert capabilities + [] == capabilities;
    }
    r := Returned(capabilities);
  }

  /** parseOpenMessage, with its loop over the optional parameters. */
  method ParseOpenMessage(b: seq<byte>) returns (r: Outcome<Body>)
    requires |b| >= BGP_HEAD_LEN
    ensures r == OpenOf(b)
  {
    var position := BGP_HEAD_LEN;
    if position + 5 > |b| {
      // readUInt16BE of the AS or of the hold time throws
      return Threw;
    }
    var version := b[position];
    var asn := BE16(b, position + 1);
    var holdTime := BE16(b, position + 3);
    position := position + 5;
    var routerId := [ByteAt(b, position), ByteAt(b, position + 1), ByteAt(b, position + 2), ByteAt(b, position + 3)];
    position := position + 4;
    var optParamLen := ByteAt(b, position);
    position := position + 1;
    var capabilities: seq<Capability> := [];
    if optParamLen.Some? && optParamLen.value > 0 {
      var start, optParamsEnd := position, position + optParamLen.value;
      PrependEmpty(ParametersFrom(b, start, optParamsEnd));
      while position < optParamsEnd
        invariant Prepend(capabilities, ParametersFrom(b, position, optParamsEnd)) == ParametersFrom(b, start, optParamsEnd)
        decreases optParamsEnd - position
      {
        var paramLen := ByteAt(b, position + 1);
        if paramLen.None? {
          // position + undefined is NaN: the loop ends
          break;
        }
        var caps: Outcome<seq<Capability>> := Returned([]);
        if b[position] == OPT_CAPABILITIES {
          caps := ReadCapabilities(b, position + 2, position + 2 + paramLen.value);
        }
        if caps.Threw? {
          return Threw;
        }
        var next := position + 2 + paramLen.value;
        PrependJoin(capabilities, caps.value, ParametersFrom(b, next, optParamsEnd));
        capabilities := capabilities + caps.value;
        position := next;
      }
      assert capabilities + [] == capabilities;
    }
    r := Returned(OpenBody(version, asn, holdTime, routerId, optParamLen, capabilities));
  }

  lemma PrependJoin<T>(xs: seq<T>, ys: seq<T>, r: Outcome<seq<T>>)
    ensures Prepend(xs, Prepend(ys, r)) == Prepend(xs + ys, r)
  {
    if r.Returned? {
      assert xs + (ys + r.value) == xs + ys + r.value;
    }
  }

  /** Octet strings short enough for a one-octet length. */
  type ShortOctets = s: seq<byte> | |s| < 256

  /** A capability as a speaker writes it (RFC 5492 section 4): a code, a
    * length octet and the value. */
  datatype CapabilityField = CapabilityField(code: byte, value: ShortOctets)

  function EncodeCapabilities(cs: seq<CapabilityField>): (r: seq<byte>)
    ensures |r| >= 2 * |cs|
  {
    if cs == [] then []
    else [cs[0].code, |cs[0].value| as byte] + cs[0].value + EncodeCapabilities(cs[1..])
  }

  /** What the parser is meant to report for a capability written whole:
    * the AFI and SAFI around the reserved octet of RFC 4760 section 8, the
    * AS number of RFC 6793 section 3, the role octet of RFC 9234 section
    * 4.1. */
  function Decoded(c: CapabilityField): Capability
  {
    var n := |c.value|;
    Capability(Some(c.code), Some(n as byte),
               if c.code == CAP_MULTIPROTOCOL && n >= 4 then Multiprotocol(BE16(c.value, 0), Some(c.value[3]))
               else if c.code == CAP_FOUR_OCTET_AS && n >= 4 then FourOctetAs(BE32(c.value, 0))
               else if c.code == CAP_BGP_ROLE && n >= 1 then Role(Some(c.value[0]))
               else Plain)
  }

  function DecodedAll(cs: seq<CapabilityField>): (r: seq<Capability>)
    ensures |r| == |cs|
  {
    if cs == [] then [] else [Decoded(cs[0])] + DecodedAll(cs[1..])
  }

  /** Capabilities written whole between pos and end are read back: the
    * walk never throws and reports each code, length and value. */
  lemma {:induction false} CapabilitiesReadBack(b: seq<byte>, pos: nat, end: nat, cs: seq<CapabilityField>)
    requires pos <= end <= |b| && b[pos..end] == EncodeCapabilities(cs)
    ensures CapabilitiesFrom(b, pos, end) == Returned(DecodedAll(cs))
    decreases |cs|
  {
    if cs == [] {
      assert |b[pos..end]| == 0;
    } else {
      var next := FirstCapabilityReadBack(b, pos, end, cs);
      CapabilitiesReadBack(b, next, end, cs[1..]);
      CapabilitiesUnfold(b, pos, end, Decoded(cs[0]), next, DecodedAll(cs[1..]));
    }
  }

  lemma CapabilitiesUnfold(b: seq<byte>, pos: nat, end: int, c: Capability, next: nat, rest: seq<Capability>)
    requires pos < end && CapabilityAt(b, pos) == Returned(c) && c.length.Some?
    requires next == pos + 2 + c.length.value && CapabilitiesFrom(b, next, end) == Returned(rest)
    ensures CapabilitiesFrom(b, pos, end) == Returned([c] + rest)
  {
  }

  lemma FirstCapabilityReadBack(b: seq<byte>, pos: nat, end: nat, cs: seq<CapabilityField>) returns (next: nat)
    requires pos <= end <= |b| && b[pos..end] == EncodeCapabilities(cs) && cs != []
    ensures next == pos + 2 + |cs[0].value| && next <= end && b[next..end] == EncodeCapabilities(cs[1..])
    ensures CapabilityAt(b, pos) == Returned(Decoded(cs[0]))
  {
    var c, e := cs[0], EncodeCapabilities(cs);
    var n := |c.value|;
    next := pos + 2 + n;
    assert e == [c.code, n as byte] + c.value + EncodeCapabilities(cs[1..]);
    assert b[pos] == e[0] && b[pos + 1] == e[1];
    assert e[2..2 + n] == c.value;
    assert next <= end by {
      assert |e| == 2 + n + |EncodeCapabilities(cs[1..])|;
    }
    forall k | 0 <= k < n
      ensures b[pos + 2 + k] == c.value[k]
    {
      assert b[pos + 2 + k] == b[pos..end][2 + k] == e[2 + k];
    }
    assert b[pos + 2..next] == c.value;
    assert b[next..end] == b[pos..end][2 + n..];
    assert e[2 + n..] == EncodeCapabilities(cs[1..]);
    CapabilityValueAt(b, pos + 2, c.value);
  }

  lemma CapabilityValueAt(b: seq<byte>, at: nat, v: seq<byte>)
    requires at + |v| <= |b| && b[at..at + |v|] == v
    ensures |v| >= 4 ==> BE16(b, at) == BE16(v, 0) && BE32(b, at) == BE32(v, 0) && ByteAt(b, at + 3) == Some(v[3])
    ensures |v| >= 1 ==> ByteAt(b, at) == Some(v[0])
  {
    if |v| >= 4 {
      assert b[at] == v[0] && b[at + 1] == v[1] && b[at + 2] == v[2] && b[at + 3] == v[3];
    }
    if |v| >= 1 {
      assert b[at] == v[0];
    }
  }

  /** A Capabilities optional parameter written whole between pos and end
    * (type 2, a length octet, then the capabilities) is read back. */
  lemma ParameterReadBack(b: seq<byte>, pos: nat, end: nat, cs: seq<CapabilityField>)
    requires var e := EncodeCapabilities(cs);
             |e| < 256 && pos <= end <= |b| && b[pos..end] == [OPT_CAPABILITIES, |e| as byte] + e
    ensures ParametersFrom(b, pos, end) == Returned(DecodedAll(cs))
  {
    var e := EncodeCapabilities(cs);
    assert b[pos] == OPT_CAPABILITIES && b[pos + 1] == |e| as byte;
    assert b[pos + 2..end] == e;
    CapabilitiesReadBack(b, pos + 2, end, cs);
    assert ParametersFrom(b, end, end) == Returned([]);
    assert DecodedAll(cs) + [] == DecodedAll(cs);
  }

  /** An OPEN whose optional parameters are one Capabilities parameter
    * written whole parses to its fixed fields and those capabilities. */
  lemma OpenReadBack(b: seq<byte>, cs: seq<CapabilityField>)
    requires var e := EncodeCapabilities(cs);
             |e| + 2 < 256 && |b| == BGP_HEAD_LEN + 10 + 2 + |e| &&
             b[BGP_HEAD_LEN + 9] as int == 2 + |e| && b[BGP_HEAD_LEN + 10..] == [OPT_CAPABILITIES, |e| as byte] + e
    ensures OpenOf(b) == Returned(OpenBody(b[BGP_HEAD_LEN], BE16(b, BGP_HEAD_LEN + 1), BE16(b, BGP_HEAD_LEN + 3),
                                           [Some(b[24]), Some(b[25]), Some(b[26]), Some(b[27])],
                                           Some(b[BGP_HEAD_LEN + 9]), DecodedAll(cs)))
  {
    ParameterReadBack(b, BGP_HEAD_LEN + 10, |b|, cs);
  }

  /** A four-octet AS capability cut short by the end of the message makes
    * readUInt32BE throw, so the whole OPEN is reported as a parse error. */
  lemma TruncatedFourOctetAs(b: seq<byte>)
    requires HeaderOk(b) && b[BGP_MARKER_LEN + 2] == OPEN as byte && BGP_HEAD_LEN + 14 <= |b| < BGP_HEAD_LEN + 18
    requires b[BGP_HEAD_LEN + 9] > 0 && b[BGP_HEAD_LEN + 10] == OPT_CAPABILITIES && b[BGP_HEAD_LEN + 11] >= 2
    requires b[BGP_HEAD_LEN + 12] == CAP_FOUR_OCTET_AS && b[BGP_HEAD_LEN + 13] >= 4
    ensures PacketOf(b) == Invalid(ParseError)
  {
    assert CapabilityAt(b, BGP_HEAD_LEN + 12) == Threw;
    assert CapabilitiesFrom(b, BGP_HEAD_LEN + 12, BGP_HEAD_LEN + 12 + b[BGP_HEAD_LEN + 11]) == Threw;
    assert ParametersFrom(b, BGP_HEAD_LEN + 10, BGP_HEAD_LEN + 10 + b[BGP_HEAD_LEN + 9]) == Threw;
  }

  // ---------------------------------------------------------------------
  // parseBgpPacket
  // ---------------------------------------------------------------------

  /** The fields the model keeps of each message type: an OPEN with its
    * capabilities, an UPDATE, a NOTIFICATION, a ROUTE-REFRESH; KEEPALIVE
    * has none. */
  datatype Body =
    | NoBody
    | OpenBody(version: byte, asn: int, holdTime: int, routerId: seq<Option<byte>>,
               optParamLen: Option<byte>, capabilities: seq<Capability>)
    | UpdateBody(update: Update)
    | NotificationBody(errorCode: Option<byte>, errorSubcode: Option<byte>, data: seq<byte>)
    | RouteRefreshBody(afi: int, subType: Option<byte>, safi: Option<byte>)

  datatype Rejection =
    | TooSmall
    | BadMarker
    | Incomplete(expected: int, got: int)
    | UnknownType(packetType: byte)
    | ParseError

  datatype Packet = Valid(packetType: byte, length: int, body: Body) | Invalid(error: Rejection)

  /** The sixteen marker octets are all ones (RFC 4271 section 4.1). */
  predicate MarkerOk(b: seq<byte>)
    requires |b| >= BGP_MARKER_LEN
  {
    forall k :: 0 <= k < BGP_MARKER_LEN ==> b[k] == 0xff
  }

  /** Long enough for a header, the marker right, and the buffer holding
    * the length the header declares. */
  predicate HeaderOk(b: seq<byte>)
  {
    |b| >= BGP_HEAD_LEN && MarkerOk(b) && BE16(b, BGP_MARKER_LEN) <= |b|
  }

  /** The body parser the type selects, for a known type. */
  function BodyOf(b: seq<byte>, t: byte): Outcome<Body>
    requires |b| >= BGP_HEAD_LEN && OPEN <= t <= ROUTE_REFRESH
  {
    if t == OPEN then OpenOf(b)
    else if t == UPDATE then
      match UpdateOf(b)
      case Threw => Threw
      case Returned(u) => Returned(UpdateBody(u))
    else if t == NOTIFICATION then
      Returned(NotificationBody(ByteAt(b, BGP_HEAD_LEN), ByteAt(b, BGP_HEAD_LEN + 1),
                                b[if |b| < BGP_HEAD_LEN + 2 then |b| else BGP_HEAD_LEN + 2..]))
    else if t == KEEPALIVE then Returned(NoBody)
    else
      if |b| < BGP_HEAD_LEN + 2 then Threw
      else Returned(RouteRefreshBody(BE16(b, BGP_HEAD_LEN), ByteAt(b, BGP_HEAD_LEN + 2), ByteAt(b, BGP_HEAD_LEN + 3)))
  }

  /** parseBgpPacket: the three header checks in order, then the body, an
    * exception from which makes the packet invalid. */
  function PacketOf(b: seq<byte>): Packet
  {
    if |b| < BGP_HEAD_LEN then Invalid(TooSmall)
    else if !MarkerOk(b) then Invalid(BadMarker)
    else
      var length := BE16(b, BGP_MARKER_LEN);
      var t := b[BGP_MARKER_LEN + 2];
      if |b| < length then Invalid(Incomplete(length, |b|))
      else if !(OPEN <= t <= ROUTE_REFRESH) then Invalid(UnknownType(t))
      else
        match BodyOf(b, t)
        case Threw => Invalid(ParseError)
        case Returned(body) => Valid(t, length, body)
  }

  /** parseBgpPacket */
  method ParseBgpPacket(b: seq<byte>) returns (p: Packet)
    ensures p == PacketOf(b)
    ensures p == Invalid(TooSmall) <==> |b| < BGP_HEAD_LEN
    ensures p == Invalid(BadMarker) <==> |b| >= BGP_HEAD_LEN && !MarkerOk(b)
    ensures (p.Invalid? && p.error.Incomplete?) <==>
              |b| >= BGP_HEAD_LEN && MarkerOk(b) && |b| < BE16(b, BGP_MARKER_LEN)
    ensures (p.Invalid? && p.error.UnknownType?) <==>
              HeaderOk(b) && !(OPEN <= b[BGP_MARKER_LEN + 2] <= ROUTE_REFRESH)
    ensures p.Valid? ==> HeaderOk(b) && p.packetType == b[BGP_MARKER_LEN + 2] && p.length == BE16(b, BGP_MARKER_LEN)
    ensures HeaderOk(b) && b[BGP_MARKER_LEN + 2] == KEEPALIVE ==> p == Valid(KEEPALIVE, BE16(b, BGP_MARKER_LEN), NoBody)
  {
    if |b| < BGP_HEAD_LEN {
      return Invalid(TooSmall);
    }
    var markerOk := forall k :: 0 <= k < BGP_MARKER_LEN ==> b[k] == 0xff;
    if !markerOk {
      return Invalid(BadMarker);
    }
    var length := BE16(b, BGP_MARKER_LEN);
    var t := b[BGP_MARKER_LEN + 2];
    if |b| < length {
      return Invalid(Incomplete(length, |b|));
    }
    if t == OPEN {
      var open := ParseOpenMessage(b);
      if open.Threw? {
        return Invalid(ParseError);
      }
      return Valid(t, length, open.value);
    } else if t == UPDATE {
      var update := ParseUpdateMessage(b);
      if update.Threw? {
        return Invalid(ParseError);
      }
      return Valid(t, length, UpdateBody(update.value));
    } else if OPEN <= t <= ROUTE_REFRESH {
      var body := BodyOf(b, t);
      if body.Threw? {
        return Invalid(ParseError);
      }
      return Valid(t, length, body.value);
    }
    return Invalid(UnknownType(t));
  }
}
