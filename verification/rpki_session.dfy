/** electron/worker/rpkiSession.js: the cache side of an RPKI-to-Router
  * session. The session splits the received octet stream into PDUs by the
  * length in their headers, answers each PDU, and builds the PDUs it sends
  * (Cache Response, IPv4/IPv6 Prefix, End of Data, Cache Reset, Reset
  * Query, and the error PDU). Type codes, flags and error codes are those
  * of RFC 6810 section 5 and section 10; the Router Key type is that of
  * RFC 8210 section 5.10. The session's own ERROR type, which it writes
  * for its error PDU and dispatches on after Error Report, is not an
  * RFC 6810 type; its value is kept as the session's `errorType`. */
module RpkiSession {
  import opened Base
  import opened IpUtils

  type u16 = x: int | 0 <= x < 0x1_0000
  type u32 = x: int | 0 <= x < 0x1_0000_0000

  const HEADER_LENGTH: int := 8
  const V0: byte := 0

  // PDU types
  const RESET_QUERY: byte := 2
  const CACHE_RESPONSE: byte := 3
  const IPV4_PREFIX: byte := 4
  const IPV6_PREFIX: byte := 6
  const END_OF_DATA: byte := 7
  const CACHE_RESET: byte := 8
  const ROUTER_KEY: byte := 9
  const ERROR_REPORT: byte := 10

  // Prefix flags
  const ANNOUNCE: byte := 1
  const WITHDRAWAL: byte := 0

  // Error codes
  const INTERNAL_ERROR: u16 := 1
  const UNSUPPORTED_PROTOCOL_VERSION: u16 := 4
  const UNSUPPORTED_PDU_TYPE: u16 := 5

  // End of Data timers of a version 1 PDU, in seconds
  const REFRESH_INTERVAL: u32 := 3600
  const RETRY_INTERVAL: u32 := 600
  const EXPIRE_INTERVAL: u32 := 7200

  // ---------------------------------------------------------------------
  // The PDU header
  // ---------------------------------------------------------------------

  datatype Header = Header(version: byte, pduType: byte, reserved: u16, length: u32)

  /** parseRpkiHeader; None where readUInt16BE or readUInt32BE throws
    * because the octets are fewer than a header. */
  function ParseHeader(b: seq<byte>): (r: Option<Header>)
    ensures r.Some? <==> |b| >= HEADER_LENGTH
  {
    if |b| < HEADER_LENGTH then None
    else Some(Header(b[0], b[1], BE16(b, 2), BE32(b, 4)))
  }

  /** The eight header octets: version, type, a 16-bit field (reserved, or
    * the session id) and the 32-bit length. */
  function HeaderBytes(version: byte, pduType: byte, field: u16, length: u32): (r: seq<byte>)
    ensures |r| == HEADER_LENGTH
  {
    [version, pduType] + WriteUInt16(field) + WriteUInt32(length)
  }

  /** Reading back a written header gives its fields, whatever follows it. */
  lemma HeaderRoundTrip(version: byte, pduType: byte, field: u16, length: u32, body: seq<byte>)
    ensures ParseHeader(HeaderBytes(version, pduType, field, length) + body)
         == Some(Header(version, pduType, field, length))
  {
    var b := HeaderBytes(version, pduType, field, length) + body;
    assert BE16(b, 2) == field by {
      assert b[2..4] == WriteUInt16(field);
      assert BE16(b, 2) == BE16(WriteUInt16(field), 0);
    }
    assert BE32(b, 4) == length by {
      assert b[4..8] == WriteUInt32(length);
      assert BE32(b, 4) == BE32(WriteUInt32(length), 0);
    }
  }

  /** Writing a parsed header gives back the first eight octets. */
  lemma HeaderOfBytes(b: seq<byte>)
    requires |b| >= HEADER_LENGTH
    ensures var h := ParseHeader(b).value;
            HeaderBytes(h.version, h.pduType, h.reserved, h.length) == b[..HEADER_LENGTH]
  {
    WriterOfBE16(b, 2);
    WriterOfBE32(b, 4);
    assert b[..HEADER_LENGTH] == [b[0], b[1]] + b[2..4] + b[4..8];
  }

  /** The header's length field equals the size of the PDU. */
  predicate Framed(p: seq<byte>)
  {
    |p| >= HEADER_LENGTH && BE32(p, 4) == |p|
  }

  /** A PDU made of a header and a body is framed when the header's
    * length counts both. */
  lemma FramedByHeader(version: byte, pduType: byte, field: u16, body: seq<byte>)
    requires HEADER_LENGTH + |body| < 0x1_0000_0000
    ensures Framed(HeaderBytes(version, pduType, field, HEADER_LENGTH + |body|) + body)
  {
    HeaderRoundTrip(version, pduType, field, HEADER_LENGTH + |body|, body);
  }

  // ---------------------------------------------------------------------
  // The PDUs the cache builds
  // ---------------------------------------------------------------------

  datatype IpType = Ipv4 | Ipv6

  /** A ROA of the worker's map: its address as the octets ipToBytes gives,
    * its prefix length, its maximum length and its origin AS. */
  datatype Roa = Roa(ipType: IpType, ip: seq<byte>, mask: byte, maxLength: byte, asn: u32)

  /** The address octets of a Prefix PDU: 4 for IPv4, 16 for IPv6. */
  function AddressSize(t: IpType): (n: nat)
    ensures n == 4 || n == 16
  {
    if t == Ipv4 then 4 else 16
  }

  /** The n address octets a Prefix PDU carries; an octet the address does
    * not have is written as 0, as a typed array stores `undefined`. */
  function AddressOctets(ip: seq<byte>, n: nat): (r: seq<byte>)
    ensures |r| == n
    ensures forall i :: 0 <= i < n && i < |ip| ==> r[i] == ip[i]
    ensures forall i :: |ip| <= i < n ==> r[i] == 0
  {
    seq(n, i requires 0 <= i < n => if i < |ip| then ip[i] else 0)
  }

  /** Header-only PDUs: Reset Query, Cache Response and Cache Reset. */
  function HeaderPdu(version: byte, pduType: byte, field: u16): (r: seq<byte>)
    ensures Framed(r) && |r| == HEADER_LENGTH
  {
    FramedByHeader(version, pduType, field, []);
    HeaderBytes(version, pduType, field, HEADER_LENGTH) + []
  }

  /** The body of a Prefix PDU after the header. */
  function PrefixBody(flags: byte, roa: Roa): seq<byte>
  {
    [flags, roa.mask, roa.maxLength, 0] + AddressOctets(roa.ip, AddressSize(roa.ipType)) + WriteUInt32(roa.asn)
  }

  function PrefixType(t: IpType): byte
  {
    if t == Ipv4 then IPV4_PREFIX else IPV6_PREFIX
  }

  /** sendIPv4Prefix, sendIPv6Prefix, withdrawIPv4Prefix and
    * withdrawIPv6Prefix: a 20-octet IPv4 or 32-octet IPv6 Prefix PDU whose
    * header counts the whole PDU. */
  function PrefixPdu(version: byte, flags: byte, roa: Roa): (r: seq<byte>)
    ensures Framed(r)
    ensures |r| == if roa.ipType == Ipv4 then 20 else 32
  {
    var body := PrefixBody(flags, roa);
    FramedByHeader(version, PrefixType(roa.ipType), 0, body);
    HeaderBytes(version, PrefixType(roa.ipType), 0, HEADER_LENGTH + |body|) + body
  }

  /** The fields of a Prefix PDU body as section 5.6 of RFC 6810 lays them
    * out: flags, prefix length, max length, a zero octet, the prefix, then
    * the AS number. */
  datatype PrefixFields = PrefixFields(flags: byte, prefixLength: byte, maxLength: byte, zero: byte,
                                       prefix: seq<byte>, asn: u32)

  /** A reader of Prefix PDUs that follows RFC 6810 section 5.6. */
  function DecodePrefix(p: seq<byte>): (r: Option<PrefixFields>)
    ensures r.Some? ==> |r.value.prefix| == 4 || |r.value.prefix| == 16
  {
    if |p| < HEADER_LENGTH then None
    else
      var n := if p[1] == IPV4_PREFIX then 4 else if p[1] == IPV6_PREFIX then 16 else 0;
      if n == 0 || |p| != HEADER_LENGTH + 8 + n then None
      else Some(PrefixFields(p[8], p[9], p[10], p[11], p[12..12 + n], BE32(p, 12 + n)))
  }

  /** The Prefix PDU carries the ROA in the layout of RFC 6810 section 5.6. */
  lemma PrefixLayout(version: byte, flags: byte, roa: Roa)
    ensures var p := PrefixPdu(version, flags, roa);
            var n := AddressSize(roa.ipType);
            ParseHeader(p) == Some(Header(version, PrefixType(roa.ipType), 0, |p|)) &&
            DecodePrefix(p) == Some(PrefixFields(flags, roa.mask, roa.maxLength, 0,
                                                 AddressOctets(roa.ip, n), roa.asn))
  {
    var p := PrefixPdu(version, flags, roa);
    var n := AddressSize(roa.ipType);
    var body := PrefixBody(flags, roa);
    var head := HeaderBytes(version, PrefixType(roa.ipType), 0, HEADER_LENGTH + |body|)
              + [flags, roa.mask, roa.maxLength, 0];
    var address := AddressOctets(roa.ip, n);
    HeaderRoundTrip(version, PrefixType(roa.ipType), 0, HEADER_LENGTH + |body|, body);
    assert p == head + address + WriteUInt32(roa.asn);
    TrailingFields(head, address, WriteUInt32(roa.asn));
  }

  /** The octets of the middle and last parts of a three-part PDU, and the
    * 32-bit value of a four-octet last part. */
  lemma TrailingFields(head: seq<byte>, middle: seq<byte>, last: seq<byte>)
    requires |last| == 4
    ensures var p := head + middle + last;
            p[|head|..|head| + |middle|] == middle && BE32(p, |head| + |middle|) == BE32(last, 0)
  {
    var p := head + middle + last;
    assert p[|head| + |middle|..] == last;
  }

  /** The withdraw PDU is the announce PDU with the flags octet changed to
    * WITHDRAWAL. */
  lemma WithdrawOnlyFlags(version: byte, roa: Roa)
    ensures var a, w := PrefixPdu(version, ANNOUNCE, roa), PrefixPdu(version, WITHDRAWAL, roa);
            |a| == |w| && a[8] == ANNOUNCE && w[8] == WITHDRAWAL &&
            forall i :: 0 <= i < |a| && i != 8 ==> a[i] == w[i]
  {
    var a, w := PrefixPdu(version, ANNOUNCE, roa), PrefixPdu(version, WITHDRAWAL, roa);
    var h := HeaderBytes(version, PrefixType(roa.ipType), 0, |a|);
    var tail := AddressOctets(roa.ip, AddressSize(roa.ipType)) + WriteUInt32(roa.asn);
    assert a == h + [ANNOUNCE, roa.mask, roa.maxLength, 0] + tail;
    assert w == h + [WITHDRAWAL, roa.mask, roa.maxLength, 0] + tail;
  }

  /** sendEndOfData: above version 0 the 26-octet layout with the session
    * id, serial 1 and the three timers; at version 0 a 12-octet PDU with
    * the session id in the header and serial 0. */
  function EndOfDataPdu(version: byte, sessionId: u16): (r: seq<byte>)
    ensures Framed(r)
  {
    if version > V0 then
      var body := WriteUInt16(sessionId) + WriteUInt32(1) + WriteUInt32(REFRESH_INTERVAL)
                + WriteUInt32(RETRY_INTERVAL) + WriteUInt32(EXPIRE_INTERVAL);
      FramedByHeader(version, END_OF_DATA, 0, body);
      HeaderBytes(version, END_OF_DATA, 0, HEADER_LENGTH + |body|) + body
    else
      FramedByHeader(version, END_OF_DATA, sessionId, WriteUInt32(0));
      HeaderBytes(version, END_OF_DATA, sessionId, HEADER_LENGTH + 4) + WriteUInt32(0)
  }

  /** End of Data at version 0 has the session id in octets 2-3, length
    * 12 and serial 0; above it, the session id follows the header, then
    * serial 1 and the refresh, retry and expire intervals. */
  lemma EndOfDataLayout(version: byte, sessionId: u16)
    ensures var p := EndOfDataPdu(version, sessionId);
            p[0] == version && p[1] == END_OF_DATA &&
            (version == V0 ==> |p| == 12 && BE16(p, 2) == sessionId && BE32(p, 8) == 0) &&
            (version > V0 ==> |p| == 26 && BE16(p, 2) == 0 && BE16(p, 8) == sessionId &&
                              BE32(p, 10) == 1 && BE32(p, 14) == REFRESH_INTERVAL &&
                              BE32(p, 18) == RETRY_INTERVAL && BE32(p, 22) == EXPIRE_INTERVAL)
  {
    var p := EndOfDataPdu(version, sessionId);
    if version > V0 {
      var body := WriteUInt16(sessionId) + WriteUInt32(1) + WriteUInt32(REFRESH_INTERVAL)
                + WriteUInt32(RETRY_INTERVAL) + WriteUInt32(EXPIRE_INTERVAL);
      HeaderRoundTrip(version, END_OF_DATA, 0, HEADER_LENGTH + |body|, body);
      assert p[8..10] == WriteUInt16(sessionId);
      assert BE16(p, 8) == BE16(WriteUInt16(sessionId), 0);
      assert p[10..14] == WriteUInt32(1);
      assert BE32(p, 10) == BE32(WriteUInt32(1), 0);
      assert p[14..18] == WriteUInt32(REFRESH_INTERVAL);
      assert BE32(p, 14) == BE32(WriteUInt32(REFRESH_INTERVAL), 0);
      assert p[18..22] == WriteUInt32(RETRY_INTERVAL);
      assert BE32(p, 18) == BE32(WriteUInt32(RETRY_INTERVAL), 0);
      assert p[22..26] == WriteUInt32(EXPIRE_INTERVAL);
      assert BE32(p, 22) == BE32(WriteUInt32(EXPIRE_INTERVAL), 0);
    } else {
      HeaderRoundTrip(version, END_OF_DATA, sessionId, HEADER_LENGTH + 4, WriteUInt32(0));
      assert p[8..12] == WriteUInt32(0);
      assert BE32(p, 8) == BE32(WriteUInt32(0), 0);
    }
  }

  /** sendError: a 10-octet PDU of the session's ERROR type whose error
    * code follows the header. */
  function ErrorPdu(version: byte, errorType: byte, code: u16): (r: seq<byte>)
    ensures Framed(r) && |r| == HEADER_LENGTH + 2
    ensures r[0] == version && r[1] == errorType && BE16(r, 2) == 0 && BE16(r, HEADER_LENGTH) == code
  {
    FramedByHeader(version, errorType, 0, WriteUInt16(code));
    HeaderRoundTrip(version, errorType, 0, HEADER_LENGTH + 2, WriteUInt16(code));
    var r := HeaderBytes(version, errorType, 0, HEADER_LENGTH + 2) + WriteUInt16(code);
    assert r[8..10] == WriteUInt16(code);
    assert BE16(r, 8) == BE16(WriteUInt16(code), 0);
    r
  }

  // ---------------------------------------------------------------------
  // Building a PDU in a buffer at an advancing position
  // ---------------------------------------------------------------------

  /** buffer.write*BE at a position: the octets land there and the octets
    * before the position are kept. */
  method WriteOctets(buffer: array<byte>, position: int, octets: seq<byte>)
    requires 0 <= position && position + |octets| <= buffer.Length
    modifies buffer
    ensures forall k :: 0 <= k < position ==> buffer[k] == old(buffer[k])
    ensures forall k :: 0 <= k < |octets| ==> buffer[position + k] == octets[k]
  {
    for i := 0 to |octets|
      invariant forall k :: 0 <= k < position ==> buffer[k] == old(buffer[k])
      invariant forall k :: 0 <= k < i ==> buffer[position + k] == octets[k]
    {
      buffer[position + i] := octets[i];
    }
  }

  /** The four prefix builders of the session, one per address family and
    * flag: header, flags, prefix length, max length, padding, the address
    * octets copied one by one, then the AS number. */
  method BuildPrefixPdu(version: byte, flags: byte, roa: Roa) returns (buffer: array<byte>)
    ensures buffer[..] == PrefixPdu(version, flags, roa)
  {
    var expected := PrefixPdu(version, flags, roa);
    var n := AddressSize(roa.ipType);
    var ipBytes := AddressOctets(roa.ip, n);
    buffer := new byte[HEADER_LENGTH + 8 + n];
    var position := 0;
    WriteOctets(buffer, position, HeaderBytes(version, PrefixType(roa.ipType), 0, HEADER_LENGTH + 8 + n));
    position := position + HEADER_LENGTH;
    buffer[position] := flags;
    position := position + 1;
    buffer[position] := roa.mask;
    position := position + 1;
    buffer[position] := roa.maxLength;
    position := position + 1;
    buffer[position] := 0;
    position := position + 1;
    assert forall k :: 0 <= k < position ==> buffer[k] == expected[k];
    for i := 0 to n
      invariant forall k :: 0 <= k < position + i ==> buffer[k] == expected[k]
    {
      buffer[position + i] := ipBytes[i];
    }
    position := position + n;
    WriteOctets(buffer, position, WriteUInt32(roa.asn));
    position := position + 4;
    assert forall k :: 0 <= k < position ==> buffer[k] == expected[k];
  }

  /** sendEndOfData's buffer, for either version. */
  method BuildEndOfData(version: byte, sessionId: u16) returns (buffer: array<byte>)
    ensures buffer[..] == EndOfDataPdu(version, sessionId)
  {
    if version > V0 {
      buffer := BuildEndOfDataTimers(version, sessionId);
    } else {
      buffer := new byte[HEADER_LENGTH + 4];
      var position := 0;
      WriteOctets(buffer, position, HeaderBytes(version, END_OF_DATA, sessionId, HEADER_LENGTH + 4));
      position := position + HEADER_LENGTH;
      WriteOctets(buffer, position, WriteUInt32(0));
      assert forall k :: 0 <= k < buffer.Length ==> buffer[k] == EndOfDataPdu(version, sessionId)[k];
    }
  }

  /** The version 1 End of Data buffer, its fields written at fixed offsets. */
  method BuildEndOfDataTimers(version: byte, sessionId: u16) returns (buffer: array<byte>)
    requires version > V0
    ensures buffer[..] == EndOfDataPdu(version, sessionId)
  {
    ghost var expected := EndOfDataPdu(version, sessionId);
    TimersParts(version, sessionId);
    buffer := new byte[HEADER_LENGTH + 18];
    PutOctets(buffer, 0, HeaderBytes(version, END_OF_DATA, 0, HEADER_LENGTH + 18), expected);
    PutOctets(buffer, HEADER_LENGTH, WriteUInt16(sessionId), expected);
    PutOctets(buffer, HEADER_LENGTH + 2, WriteUInt32(1), expected);
    PutOctets(buffer, HEADER_LENGTH + 6, WriteUInt32(REFRESH_INTERVAL), expected);
    PutOctets(buffer, HEADER_LENGTH + 10, WriteUInt32(RETRY_INTERVAL), expected);
    PutOctets(buffer, HEADER_LENGTH + 14, WriteUInt32(EXPIRE_INTERVAL), expected);
  }

  lemma TimersParts(version: byte, sessionId: u16)
    requires version > V0
    ensures var p := EndOfDataPdu(version, sessionId);
            |p| == HEADER_LENGTH + 18 &&
            p[0..8] == HeaderBytes(version, END_OF_DATA, 0, HEADER_LENGTH + 18) &&
            p[8..10] == WriteUInt16(sessionId) && p[10..14] == WriteUInt32(1) &&
            p[14..18] == WriteUInt32(REFRESH_INTERVAL) && p[18..22] == WriteUInt32(RETRY_INTERVAL) &&
            p[22..26] == WriteUInt32(EXPIRE_INTERVAL)
  {
  }

  /** WriteOctets for a buffer filled from the front towards the octets of
    * `expected`: the octets written are the next ones expected. */
  method PutOctets(buffer: array<byte>, position: int, octets: seq<byte>, ghost expected: seq<byte>)
    requires |expected| == buffer.Length
    requires 0 <= position && position + |octets| <= buffer.Length
    requires forall k :: 0 <= k < position ==> buffer[k] == expected[k]
    requires expected[position..position + |octets|] == octets
    modifies buffer
    ensures forall k :: 0 <= k < position + |octets| ==> buffer[k] == expected[k]
    ensures position + |octets| == buffer.Length ==> buffer[..] == expected
  {
    WriteOctets(buffer, position, octets);
    assert forall k :: position <= k < position + |octets| ==> expected[k] == octets[k - position];
  }

  // ---------------------------------------------------------------------
  // Framing the received stream
  // ---------------------------------------------------------------------

  /** The head of the buffer holds no PDU to take: fewer octets than a
    * header, fewer than the declared length, or, unlike the source, a
    * declared length of 0 (see FramesStepAsWritten for the loop without
    * that test). A declared length from 1 to 7 is taken, as in the
    * source. */
  predicate Incomplete(b: seq<byte>)
  {
    |b| < HEADER_LENGTH || BE32(b, 4) == 0 || |b| < BE32(b, 4)
  }

  /** A piece the loop takes: not empty, and framed by its own header when
    * it is long enough to hold one. */
  predicate Taken(p: seq<byte>)
  {
    |p| > 0 && (|p| >= HEADER_LENGTH ==> Framed(p))
  }

  function Concat(ps: seq<seq<byte>>): seq<byte>
  {
    if ps == [] then [] else ps[0] + Concat(ps[1..])
  }

  /** processBufferedMessages: the pieces cut from the head of the buffer,
    * in order, and the octets left waiting for more data. Nothing is lost
    * or reordered, every piece is one the loop takes, and what is left
    * holds no piece to take. */
  function Frames(b: seq<byte>): (r: (seq<seq<byte>>, seq<byte>))
    ensures Concat(r.0) + r.1 == b
    ensures forall k :: 0 <= k < |r.0| ==> Taken(r.0[k])
    ensures Incomplete(r.1)
    decreases |b|
  {
    if Incomplete(b) then ([], b)
    else
      var len := BE32(b, 4);
      var rest := Frames(b[len..]);
      FramedPrefix(b);
      TakeFrame(b[..len], rest.0, rest.1, b[len..]);
      ConsFramed(b[..len], rest.0);
      ([b[..len]] + rest.0, rest.1)
  }

  /** The step of Frames past one PDU h: the octets it stands for. */
  lemma TakeFrame(h: seq<byte>, fs: seq<seq<byte>>, rest: seq<byte>, tail: seq<byte>)
    requires Concat(fs) + rest == tail
    ensures Concat([h] + fs) + rest == h + tail
  {
    ConcatCons(h, fs);
  }

  lemma ConcatCons(h: seq<byte>, fs: seq<seq<byte>>)
    ensures Concat([h] + fs) == h + Concat(fs)
  {
    var r := [h] + fs;
    assert r[0] == h && r[1..] == fs;
  }

  lemma ConsFramed(h: seq<byte>, fs: seq<seq<byte>>)
    requires Taken(h) && forall k :: 0 <= k < |fs| ==> Taken(fs[k])
    ensures forall k :: 0 <= k < |fs| + 1 ==> Taken(([h] + fs)[k])
  {
    forall k | 0 <= k < |fs| + 1
      ensures Taken(([h] + fs)[k])
    {
      if k > 0 {
        assert ([h] + fs)[k] == fs[k - 1];
      }
    }
  }

  /** The piece the header at the head of b declares is one the loop
    * takes. */
  lemma FramedPrefix(b: seq<byte>)
    requires !Incomplete(b)
    ensures Taken(b[..BE32(b, 4)])
    ensures b[..BE32(b, 4)] + b[BE32(b, 4)..] == b
  {
    if BE32(b, 4) >= HEADER_LENGTH {
      assert b[..BE32(b, 4)][4..8] == b[4..8];
    }
  }

  lemma FramesHead(b: seq<byte>)
    requires !Incomplete(b)
    ensures Frames(b) == ([b[..BE32(b, 4)]] + Frames(b[BE32(b, 4)..]).0, Frames(b[BE32(b, 4)..]).1)
  {
  }

  /** A PDU at the head of x is at the head of x + y, with the same length. */
  lemma HeadOfAppend(x: seq<byte>, y: seq<byte>)
    requires !Incomplete(x)
    ensures !Incomplete(x + y) && BE32(x + y, 4) == BE32(x, 4)
    ensures (x + y)[..BE32(x, 4)] == x[..BE32(x, 4)]
    ensures (x + y)[BE32(x, 4)..] == x[BE32(x, 4)..] + y
  {
    assert (x + y)[4..8] == x[4..8];
  }

  /** Octets that arrive later do not change the PDUs taken before them:
    * framing x + y is framing x, then framing its leftover followed by y. */
  lemma {:induction false} FramesAppend(x: seq<byte>, y: seq<byte>)
    ensures var (fx, rx) := Frames(x);
            Frames(x + y) == (fx + Frames(rx + y).0, Frames(rx + y).1)
    decreases |x|
  {
    if Incomplete(x) {
      assert [] + Frames(x + y).0 == Frames(x + y).0;
    } else {
      var len := BE32(x, 4);
      FramesHead(x);
      HeadOfAppend(x, y);
      FramesHead(x + y);
      FramesAppend(x[len..], y);
      SeqAssoc([x[..len]], Frames(x[len..]).0, Frames(Frames(x[len..]).1 + y).0);
    }
  }

  lemma SeqAssoc<T>(a: seq<T>, b: seq<T>, c: seq<T>)
    ensures (a + b) + c == a + (b + c)
  {
  }

  /** A stream of framed PDUs, as this cache writes them, is split back into
    * the same PDUs with nothing left over. */
  lemma {:induction false} FramesOfStream(ps: seq<seq<byte>>)
    requires forall k :: 0 <= k < |ps| ==> Framed(ps[k])
    ensures Frames(Concat(ps)) == (ps, [])
  {
    if ps != [] {
      var b := Concat(ps);
      var len := |ps[0]|;
      assert b == ps[0] + Concat(ps[1..]);
      assert b[4..8] == ps[0][4..8];
      assert BE32(b, 4) == len;
      assert b[..len] == ps[0] && b[len..] == Concat(ps[1..]);
      FramesOfStream(ps[1..]);
      assert [ps[0]] + ps[1..] == ps;
    }
  }

  /** The loop as written has no test on a declared length shorter than a
    * header: one turn takes the first `length` octets and keeps the rest;
    * None is the loop's exit. */
  function FramesStepAsWritten(b: seq<byte>): (r: Option<(seq<byte>, seq<byte>)>)
    ensures r.Some? ==> r.value.0 + r.value.1 == b
  {
    if |b| < HEADER_LENGTH || |b| < BE32(b, 4) then None
    else Some((b[..BE32(b, 4)], b[BE32(b, 4)..]))
  }

  /** A header declaring length 0 makes the loop as written take an empty
    * PDU and keep the buffer unchanged, so it turns forever; each turn
    * answers the empty PDU with an Internal Error report. */
  lemma ZeroLengthSpins(version: byte, pduType: byte, rest: seq<byte>)
    ensures var b := HeaderBytes(version, pduType, 0, 0) + rest;
            FramesStepAsWritten(b) == Some(([], b)) &&
            ParseHeader([]) == None &&
            Incomplete(b) && Frames(b) == ([], b)
  {
    HeaderRoundTrip(version, pduType, 0, 0, rest);
  }

  // ---------------------------------------------------------------------
  // Answering the received PDUs
  // ---------------------------------------------------------------------

  /** The fields of a session the PDU handlers read and change; `sent` is
    * what the socket was given, and `connected` says whether a socket is
    * attached and not destroyed. */
  datatype SessionState = SessionState(version: byte, sessionId: Option<u16>, connected: bool,
                                       sent: seq<seq<byte>>, errorType: byte)

  /** sendMessage: the socket is given the PDU only when it is connected. */
  function Send(s: SessionState, pdu: seq<byte>): SessionState
  {
    if s.connected then s.(sent := s.sent + [pdu]) else s
  }

  function SendAll(s: SessionState, pdus: seq<seq<byte>>): SessionState
  {
    if s.connected then s.(sent := s.sent + pdus) else s
  }

  function ErrorSent(s: SessionState, code: u16): SessionState
  {
    Send(s, ErrorPdu(s.version, s.errorType, code))
  }

  /** `if (!this.sessionId)`: a missing session id and the id 0 are both
    * replaced by the random draw. */
  function SessionIdAfter(s: SessionState, random: u16): (id: u16)
    ensures s.sessionId.Some? && s.sessionId.value != 0 ==> id == s.sessionId.value
    ensures (s.sessionId.None? || s.sessionId.value == 0) ==> id == random
  {
    if s.sessionId.None? || s.sessionId.value == 0 then random else s.sessionId.value
  }

  /** The id a PDU writes from the session's field; writeUInt16BE reads a
    * missing id as 0. */
  function SessionNumber(s: SessionState): u16
  {
    if s.sessionId.None? then 0 else s.sessionId.value
  }

  function RoaPdus(version: byte, flags: byte, roas: seq<Roa>): seq<seq<byte>>
  {
    seq(|roas|, i requires 0 <= i < |roas| => PrefixPdu(version, flags, roas[i]))
  }

  /** handleResetQuery, once the version is recorded: at version 0 a Cache
    * Response, every ROA, then End of Data; at any other version an
    * Unsupported Protocol Version error. */
  function ResetQuery(s: SessionState, roas: seq<Roa>, random: u16): SessionState
  {
    if s.version == V0 then
      var id := SessionIdAfter(s, random);
      var s1 := Send(s.(sessionId := Some(id)), HeaderPdu(s.version, CACHE_RESPONSE, id));
      var s2 := SendAll(s1, RoaPdus(s.version, ANNOUNCE, roas));
      Send(s2, EndOfDataPdu(s.version, id))
    else
      ErrorSent(s, UNSUPPORTED_PROTOCOL_VERSION)
  }

  /** processMessage: the answer to one PDU taken from the buffer. A handler
    * that throws is answered with an Internal Error report: a PDU shorter
    * than its fields, and the Prefix, End of Data and Cache Reset handlers,
    * which use the session's `roaData` map that is never created. */
  function Answer(s: SessionState, m: seq<byte>, roas: seq<Roa>, random: u16): SessionState
  {
    var h := ParseHeader(m);
    if h.None? then ErrorSent(s, INTERNAL_ERROR)
    else
      var t := h.value.pduType;
      if t == RESET_QUERY then ResetQuery(s.(version := h.value.version), roas, random)
      else if t == CACHE_RESPONSE then
        if |m| < HEADER_LENGTH + 2 then ErrorSent(s, INTERNAL_ERROR)
        else s.(sessionId := Some(BE16(m, HEADER_LENGTH)))
      else if t == IPV4_PREFIX || t == IPV6_PREFIX || t == END_OF_DATA || t == CACHE_RESET then
        ErrorSent(s, INTERNAL_ERROR)
      else if t == ROUTER_KEY then s
      else if t == ERROR_REPORT then
        if |m| < HEADER_LENGTH + 6 then ErrorSent(s, INTERNAL_ERROR) else s
      else if t == s.errorType then
        if |m| < HEADER_LENGTH + 2 then ErrorSent(s, INTERNAL_ERROR) else s
      else ErrorSent(s, UNSUPPORTED_PDU_TYPE)
  }

  /** The answers to PDUs taken in order. */
  function AnswerAll(s: SessionState, ms: seq<seq<byte>>, roas: seq<Roa>, random: u16): SessionState
    decreases |ms|
  {
    if ms == [] then s else AnswerAll(Answer(s, ms[0], roas, random), ms[1..], roas, random)
  }

  lemma {:induction false} AnswerAllAppend(s: SessionState, a: seq<seq<byte>>, b: seq<seq<byte>>,
                                           roas: seq<Roa>, random: u16)
    ensures AnswerAll(s, a + b, roas, random) == AnswerAll(AnswerAll(s, a, roas, random), b, roas, random)
    decreases |a|
  {
    if a == [] {
      assert a + b == b;
    } else {
      assert (a + b)[0] == a[0] && (a + b)[1..] == a[1..] + b;
      AnswerAllAppend(Answer(s, a[0], roas, random), a[1..], b, roas, random);
    }
  }

  /** A Reset Query is answered, in this order, by a Cache Response, one
    * Prefix PDU per ROA and End of Data when its version is 0, and by a
    * single Unsupported Protocol Version error otherwise; the session takes
    * the query's version either way. */
  lemma ResetQueryAnswer(s: SessionState, m: seq<byte>, roas: seq<Roa>, random: u16)
    requires |m| >= HEADER_LENGTH && m[1] == RESET_QUERY && s.connected
    ensures var r := Answer(s, m, roas, random);
            var id := SessionIdAfter(s, random);
            r.version == m[0] && r.connected &&
            (m[0] == V0 ==> r.sessionId == Some(id) &&
                            r.sent == s.sent + [HeaderPdu(V0, CACHE_RESPONSE, id)]
                                    + RoaPdus(V0, ANNOUNCE, roas) + [EndOfDataPdu(V0, id)]) &&
            (m[0] != V0 ==> r.sessionId == s.sessionId &&
                            r.sent == s.sent + [ErrorPdu(m[0], s.errorType, UNSUPPORTED_PROTOCOL_VERSION)])
  {
  }

  /** A header declaring a length from 1 to 7 makes the loop cut that many
    * octets off the buffer; the piece is too short for parseRpkiHeader,
    * which throws, and it is answered with an Internal Error report. */
  lemma ShortPieceAnswered(s: SessionState, b: seq<byte>, roas: seq<Roa>, random: u16)
    requires |b| >= HEADER_LENGTH && 0 < BE32(b, 4) < HEADER_LENGTH
    ensures Frames(b).0 != [] && Frames(b).0[0] == b[..BE32(b, 4)]
    ensures Answer(s, Frames(b).0[0], roas, random) == ErrorSent(s, INTERNAL_ERROR)
  {
    FramesHead(b);
  }

  /** A PDU of the session's ERROR type, when no earlier case of the
    * dispatch has that type, is only logged once its error code can be
    * read; shorter, it is answered with an Internal Error report. */
  lemma ErrorTypeAnswer(s: SessionState, m: seq<byte>, roas: seq<Roa>, random: u16)
    requires |m| >= HEADER_LENGTH && m[1] == s.errorType
    requires s.errorType !in {RESET_QUERY, CACHE_RESPONSE, IPV4_PREFIX, IPV6_PREFIX, END_OF_DATA, CACHE_RESET,
                              ROUTER_KEY, ERROR_REPORT}
    ensures |m| >= HEADER_LENGTH + 2 ==> Answer(s, m, roas, random) == s
    ensures |m| < HEADER_LENGTH + 2 ==> Answer(s, m, roas, random) == ErrorSent(s, INTERNAL_ERROR)
  {
  }

  /** A session with no socket sends nothing, whatever it receives. */
  lemma {:induction false} ClosedSendsNothing(s: SessionState, ms: seq<seq<byte>>, roas: seq<Roa>, random: u16)
    requires !s.connected
    ensures AnswerAll(s, ms, roas, random).sent == s.sent
    ensures !AnswerAll(s, ms, roas, random).connected
    decreases |ms|
  {
    if ms != [] {
      ClosedSendsNothing(Answer(s, ms[0], roas, random), ms[1..], roas, random);
    }
  }

  predicate AllFramed(ps: seq<seq<byte>>)
  {
    forall k :: 0 <= k < |ps| ==> Framed(ps[k])
  }

  lemma SendFramed(s: SessionState, pdus: seq<seq<byte>>)
    requires AllFramed(s.sent) && AllFramed(pdus)
    ensures AllFramed(SendAll(s, pdus).sent)
  {
    if s.connected {
      var t := s.sent + pdus;
      assert forall k :: |s.sent| <= k < |t| ==> t[k] == pdus[k - |s.sent|];
    }
  }

  /** Every PDU the session sends is framed, so the router splits the
    * cache's stream back into the PDUs it wrote (FramesOfStream). */
  lemma AnswerFramed(s: SessionState, m: seq<byte>, roas: seq<Roa>, random: u16)
    requires AllFramed(s.sent)
    ensures AllFramed(Answer(s, m, roas, random).sent)
  {
    var h := ParseHeader(m);
    SendFramed(s, [ErrorPdu(s.version, s.errorType, INTERNAL_ERROR)]);
    SendFramed(s, [ErrorPdu(s.version, s.errorType, UNSUPPORTED_PDU_TYPE)]);
    if h.Some? && h.value.pduType == RESET_QUERY {
      var q := s.(version := h.value.version);
      SendFramed(q, [ErrorPdu(q.version, q.errorType, UNSUPPORTED_PROTOCOL_VERSION)]);
      if q.version == V0 {
        var id := SessionIdAfter(q, random);
        var q0 := q.(sessionId := Some(id));
        SendFramed(q0, [HeaderPdu(V0, CACHE_RESPONSE, id)]);
        var s1 := Send(q0, HeaderPdu(V0, CACHE_RESPONSE, id));
        SendFramed(s1, RoaPdus(V0, ANNOUNCE, roas));
        var s2 := SendAll(s1, RoaPdus(V0, ANNOUNCE, roas));
        SendFramed(s2, [EndOfDataPdu(V0, id)]);
      }
    }
  }

  lemma {:induction false} AnswerAllFramed(s: SessionState, ms: seq<seq<byte>>, roas: seq<Roa>, random: u16)
    requires AllFramed(s.sent)
    ensures AllFramed(AnswerAll(s, ms, roas, random).sent)
    decreases |ms|
  {
    if ms != [] {
      AnswerFramed(s, ms[0], roas, random);
      AnswerAllFramed(Answer(s, ms[0], roas, random), ms[1..], roas, random);
    }
  }

  /** Receiving data in two chunks answers the same PDUs, in the same
    * order, and leaves the same octets waiting, as receiving it at once. */
  lemma ChunksCompose(s: SessionState, buffer: seq<byte>, x: seq<byte>, y: seq<byte>,
                      roas: seq<Roa>, random: u16)
    ensures var (f1, r1) := Frames(buffer + x);
            var (f2, r2) := Frames(r1 + y);
            AnswerAll(AnswerAll(s, f1, roas, random), f2, roas, random)
              == AnswerAll(s, Frames(buffer + x + y).0, roas, random) &&
            r2 == Frames(buffer + x + y).1
  {
    var (f1, r1) := Frames(buffer + x);
    FramesAppend(buffer + x, y);
    AnswerAllAppend(s, f1, Frames(r1 + y).0, roas, random);
  }

  // ---------------------------------------------------------------------
  // The session object
  // ---------------------------------------------------------------------

  /** RpkiSession: the fields its handlers update. */
  class Session {
    var protocolVersion: byte
    var sessionId: Option<u16>
    var connected: bool
    var messageBuffer: seq<byte>
    var sent: seq<seq<byte>>
    const errorType: byte

    function State(): SessionState
      reads this
    {
      SessionState(protocolVersion, sessionId, connected, sent, errorType)
    }

    /** errorType is the value of the ERROR message type the session
      * writes and dispatches on. */
    constructor(errorType: byte)
      ensures State() == SessionState(V0, None, false, [], errorType) && messageBuffer == []
    {
      this.errorType := errorType;
      protocolVersion := V0;
      sessionId := None;
      connected := false;
      messageBuffer := [];
      sent := [];
    }

    /** The worker attaches the accepted socket to the session. */
    method Attach()
      modifies this
      ensures State() == old(State()).(connected := true)
      ensures messageBuffer == old(messageBuffer)
    {
      connected := true;
    }

    /** closeSession: the socket is destroyed and dropped. */
    method CloseSession()
      modifies this
      ensures State() == old(State()).(connected := false)
      ensures messageBuffer == old(messageBuffer)
    {
      connected := false;
    }

    method SendMessage(buffer: array<byte>)
      modifies this
      ensures State() == Send(old(State()), old(buffer[..]))
      ensures messageBuffer == old(messageBuffer)
    {
      if connected {
        sent := sent + [buffer[..]];
      }
    }

    method SendHeaderPdu(pduType: byte, field: u16)
      modifies this
      ensures State() == Send(old(State()), HeaderPdu(old(protocolVersion), pduType, field))
      ensures messageBuffer == old(messageBuffer)
    {
      var buffer := new byte[HEADER_LENGTH];
      WriteOctets(buffer, 0, HeaderBytes(protocolVersion, pduType, field, HEADER_LENGTH));
      assert buffer[..] == HeaderPdu(protocolVersion, pduType, field);
      SendMessage(buffer);
    }

    method SendResetQuery()
      modifies this
      ensures State() == Send(old(State()), HeaderPdu(old(protocolVersion), RESET_QUERY, 0))
      ensures messageBuffer == old(messageBuffer)
    {
      SendHeaderPdu(RESET_QUERY, 0);
    }

    method SendCacheReset()
      modifies this
      ensures State() == Send(old(State()), HeaderPdu(old(protocolVersion), CACHE_RESET, 0))
      ensures messageBuffer == old(messageBuffer)
    {
      SendHeaderPdu(CACHE_RESET, 0);
    }

    /** sendCacheResponse; `random` stands for Math.floor(Math.random() * 65536). */
    method SendCacheResponse(random: u16)
      modifies this
      ensures var id := SessionIdAfter(old(State()), random);
              State() == Send(old(State()).(sessionId := Some(id)), HeaderPdu(old(protocolVersion), CACHE_RESPONSE, id))
      ensures messageBuffer == old(messageBuffer)
    {
      if sessionId.None? || sessionId.value == 0 {
        sessionId := Some(random);
      }
      SendHeaderPdu(CACHE_RESPONSE, sessionId.value);
    }

    method SendEndOfData()
      modifies this
      ensures State() == Send(old(State()), EndOfDataPdu(old(protocolVersion), SessionNumber(old(State()))))
      ensures messageBuffer == old(messageBuffer)
    {
      var id := if sessionId.None? then 0 else sessionId.value;
      var buffer := BuildEndOfData(protocolVersion, id);
      SendMessage(buffer);
    }

    method SendError(code: u16)
      modifies this
      ensures State() == ErrorSent(old(State()), code)
      ensures messageBuffer == old(messageBuffer)
    {
      var buffer := new byte[HEADER_LENGTH + 2];
      WriteOctets(buffer, 0, HeaderBytes(protocolVersion, errorType, 0, HEADER_LENGTH + 2));
      WriteOctets(buffer, HEADER_LENGTH, WriteUInt16(code));
      assert buffer[..] == ErrorPdu(protocolVersion, errorType, code);
      SendMessage(buffer);
    }

    /** sendSingleRoaData and withdrawSingleRoaData, by the flags. */
    method SendPrefix(flags: byte, roa: Roa)
      modifies this
      ensures State() == Send(old(State()), PrefixPdu(old(protocolVersion), flags, roa))
      ensures messageBuffer == old(messageBuffer)
    {
      var buffer := BuildPrefixPdu(protocolVersion, flags, roa);
      SendMessage(buffer);
    }

    /** sendRoaData and withdrawRoaData: one Prefix PDU per ROA of the
      * worker's map, in the map's order. */
    method SendRoas(flags: byte, roas: seq<Roa>)
      modifies this
      ensures State() == SendAll(old(State()), RoaPdus(old(protocolVersion), flags, roas))
      ensures messageBuffer == old(messageBuffer)
    {
      for i := 0 to |roas|
        invariant State() == SendAll(old(State()), RoaPdus(old(protocolVersion), flags, roas[..i]))
        invariant messageBuffer == old(messageBuffer)
      {
        assert RoaPdus(protocolVersion, flags, roas[..i + 1])
            == RoaPdus(protocolVersion, flags, roas[..i]) + [PrefixPdu(protocolVersion, flags, roas[i])];
        SendPrefix(flags, roas[i]);
      }
      assert roas[..|roas|] == roas;
    }

    method HandleResetQuery(version: byte, roas: seq<Roa>, random: u16)
      modifies this
      ensures State() == ResetQuery(old(State()).(version := version), roas, random)
      ensures messageBuffer == old(messageBuffer)
    {
      protocolVersion := version;
      if protocolVersion == V0 {
        SendCacheResponse(random);
        SendRoas(ANNOUNCE, roas);
        SendEndOfData();
      } else {
        SendError(UNSUPPORTED_PROTOCOL_VERSION);
      }
    }

    /** processMessage: the PDU's handler, or an error report. */
    method ProcessMessage(message: seq<byte>, roas: seq<Roa>, random: u16)
      modifies this
      ensures State() == Answer(old(State()), message, roas, random)
      ensures messageBuffer == old(messageBuffer)
    {
      var header := ParseHeader(message);
      if header.None? {
        SendError(INTERNAL_ERROR);
        return;
      }
      var t := header.value.pduType;
      if t == RESET_QUERY {
        HandleResetQuery(header.value.version, roas, random);
      } else if t == CACHE_RESPONSE {
        if |message| < HEADER_LENGTH + 2 {
          SendError(INTERNAL_ERROR);
        } else {
          sessionId := Some(BE16(message, HEADER_LENGTH));
        }
      } else if t == IPV4_PREFIX || t == IPV6_PREFIX || t == END_OF_DATA || t == CACHE_RESET {
        SendError(INTERNAL_ERROR);
      } else if t == ROUTER_KEY {
      } else if t == ERROR_REPORT {
        if |message| < HEADER_LENGTH + 6 {
          SendError(INTERNAL_ERROR);
        }
      } else if t == errorType {
        if |message| < HEADER_LENGTH + 2 {
          SendError(INTERNAL_ERROR);
        }
      } else {
        SendError(UNSUPPORTED_PDU_TYPE);
      }
    }

    /** recvMsg and processBufferedMessages: the received octets are
      * appended, every whole PDU at the head is taken off and answered in
      * order, and the rest waits for more data. */
    method RecvMsg(data: seq<byte>, roas: seq<Roa>, random: u16)
      modifies this
      ensures State() == AnswerAll(old(State()), Frames(old(messageBuffer) + data).0, roas, random)
      ensures messageBuffer == Frames(old(messageBuffer) + data).1
    {
      messageBuffer := messageBuffer + data;
      while |messageBuffer| >= HEADER_LENGTH
        invariant AnswerAll(State(), Frames(messageBuffer).0, roas, random)
               == AnswerAll(old(State()), Frames(old(messageBuffer) + data).0, roas, random)
        invariant Frames(messageBuffer).1 == Frames(old(messageBuffer) + data).1
        decreases |messageBuffer|
      {
        var header := ParseHeader(messageBuffer).value;
        if header.length == 0 || |messageBuffer| < header.length {
          break;
        }
        FramesHead(messageBuffer);
        var completeMessage := messageBuffer[..header.length];
        messageBuffer := messageBuffer[header.length..];
        ProcessMessage(completeMessage, roas, random);
      }
    }
  }
}
