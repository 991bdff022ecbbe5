/** The messages the BGP simulator builds (electron/worker/bgpSimulatorWorker.js):
  * the common header, KEEPALIVE, path attributes, and the IPv4 UPDATE
  * messages that announce or withdraw a run of generated routes, packed
  * while the next prefix still keeps the message under 4096 octets. */
module BgpWorkerMessages {
  import opened Base
  import opened Bits
  import opened IpUtils
  import opened BgpPacketParser

  /** Largest BGP message (RFC 4271 section 4.1). */
  const BGP_MAX_PKT_SIZE: int := 4096

  /** Attribute flag bits (RFC 4271 section 4.3). */
  const FLAG_OPTIONAL: byte := 0x80
  const FLAG_TRANSITIVE: byte := 0x40

  const MARKER: seq<byte> := [0xff, 0xff, 0xff, 0xff, 0xff, 0xff, 0xff, 0xff, 0xff, 0xff, 0xff, 0xff, 0xff, 0xff, 0xff, 0xff]

  // ---------------------------------------------------------------------
  // Header and KEEPALIVE
  // ---------------------------------------------------------------------

  /** buildBgpMessageHeader: the all-ones marker, the total length and the
    * type. writeUInt16BE throws for a length outside 0..65535. */
  function BuildBgpMessageHeader(totalLength: int, msgType: byte): (r: Outcome<seq<byte>>)
    ensures r.Returned? <==> 0 <= totalLength < TWO_16
    ensures r.Returned? ==> |r.value| == BGP_HEAD_LEN && MarkerOk(r.value)
                            && BE16(r.value, BGP_MARKER_LEN) == totalLength
                            && r.value[BGP_MARKER_LEN + 2] == msgType
  {
    if 0 <= totalLength < TWO_16 then Returned(MARKER + WriteUInt16(totalLength) + [msgType]) else Threw
  }

  /** What parseBgpHeader reports; the marker is kept as its octets. */
  datatype Header = Header(marker: seq<byte>, length: int, msgType: byte)

  /** parseBgpHeader: nothing for a buffer shorter than a header. */
  function ParseBgpHeader(b: seq<byte>): (r: Option<Header>)
    ensures r.Some? <==> |b| >= BGP_HEAD_LEN
    ensures r.Some? ==> r.value.length == BE16(b, BGP_MARKER_LEN) && r.value.msgType == b[BGP_MARKER_LEN + 2]
  {
    if |b| < BGP_HEAD_LEN then None
    else Some(Header(b[..BGP_MARKER_LEN], BE16(b, BGP_MARKER_LEN), b[BGP_MARKER_LEN + 2]))
  }

  /** A header the builder writes reads back as the length and type it was
    * given, whatever follows it. */
  lemma HeaderRoundTrip(totalLength: int, msgType: byte, rest: seq<byte>)
    requires 0 <= totalLength < TWO_16
    ensures ParseBgpHeader(BuildBgpMessageHeader(totalLength, msgType).value + rest)
            == Some(Header(MARKER, totalLength, msgType))
  {
    var h := BuildBgpMessageHeader(totalLength, msgType).value;
    var b := h + rest;
    assert b[..BGP_MARKER_LEN] == MARKER;
    assert BE16(b, BGP_MARKER_LEN) == BE16(h, BGP_MARKER_LEN);
  }

  /** buildKeepAliveMsg fills in a header by hand; it is the header the
    * common builder writes for a bare 19-octet KEEPALIVE. */
  function BuildKeepAliveMsg(): (r: seq<byte>)
    ensures BuildBgpMessageHeader(BGP_HEAD_LEN, KEEPALIVE) == Returned(r)
  {
    assert WriteUInt16(BGP_HEAD_LEN) == [0, BGP_HEAD_LEN];
    MARKER + [0, BGP_HEAD_LEN] + [KEEPALIVE]
  }

  /** The KEEPALIVE the simulator sends parses as a KEEPALIVE of 19 octets. */
  lemma KeepAliveParses()
    ensures PacketOf(BuildKeepAliveMsg()) == Valid(KEEPALIVE, BGP_HEAD_LEN, NoBody)
  {
    var b := BuildKeepAliveMsg();
    assert MarkerOk(b);
    assert BE16(b, BGP_MARKER_LEN) == BGP_HEAD_LEN;
  }

  // ---------------------------------------------------------------------
  // Path attributes
  // ---------------------------------------------------------------------

  /** buildPathAttribute: flags, type, a two-octet length for a value over
    * 255 octets and a one-octet length otherwise, then the value. The
    * flags are the caller's: the builder does not set Extended Length. */
  function BuildPathAttribute(typeCode: byte, flags: byte, value: seq<byte>): (r: seq<byte>)
    ensures |r| == (if |value| > 255 then 4 else 3) + |value|
    ensures r[0] == flags && r[1] == typeCode && r[|r| - |value|..] == value
    ensures |value| <= 255 ==> r[2] == |value|
    ensures |value| > 255 ==> BE16(r, 2) == |value| % TWO_16
  {
    [flags, typeCode] + (if |value| > 255 then WriteUInt16(|value|) else [|value|]) + value
  }

  /** The step the parser takes over an attribute with these fields,
    * ending at next. */
  function AttributeRead(flags: byte, typeCode: byte, value: seq<byte>, next: nat): Outcome<AttrStep>
  {
    match DetailOf(Some(typeCode), value)
    case Threw => Threw
    case Returned(d) => Returned(AttrStep(Attribute(Some(flags), Some(typeCode), Some(|value|), value, d), Some(next)))
  }

  /** An attribute whose Extended Length flag agrees with the width the
    * builder gave its length reads back as its flags, type and value,
    * wherever it sits in a buffer. */
  lemma PathAttributeReadBack(b: seq<byte>, pos: nat, typeCode: byte, flags: byte, value: seq<byte>)
    requires IsExtended(Some(flags)) <==> |value| > 255
    requires |value| < TWO_16
    requires var a := BuildPathAttribute(typeCode, flags, value);
             pos + |a| <= |b| && b[pos..pos + |a|] == a
    ensures AttributeAt(b, pos)
            == AttributeRead(flags, typeCode, value, pos + |BuildPathAttribute(typeCode, flags, value)|)
  {
    var a := BuildPathAttribute(typeCode, flags, value);
    assert b[pos] == a[0] && b[pos + 1] == a[1];
    assert ByteAt(b, pos) == Some(flags) && ByteAt(b, pos + 1) == Some(typeCode);
    var q := pos + |a| - |value|;
    var length: Option<int> := if IsExtended(Some(flags)) then Some(BE16(b, pos + 2)) else ByteAt(b, pos + 2);
    if |value| > 255 {
      assert BE16(b, pos + 2) == BE16(a, 2);
    } else {
      assert b[pos + 2] == a[2];
    }
    assert length == Some(|value|);
    assert b[q..q + |value|] == a[|a| - |value|..];
    assert Subarray(b, q, |value|) == value;
  }

  /** buildOriginAttribute: ORIGIN IGP. */
  function BuildOriginAttribute(): seq<byte>
  {
    BuildPathAttribute(ATTR_ORIGIN, FLAG_TRANSITIVE, [0])
  }

  /** buildAsPathAttribute: one AS_SEQUENCE segment holding the local AS. */
  function BuildAsPathAttribute(localAs: int): seq<byte>
  {
    BuildPathAttribute(ATTR_AS_PATH, FLAG_TRANSITIVE, [2, 1] + WriteUInt32(localAs))
  }

  /** buildMedAttribute: MULTI_EXIT_DISC 0. */
  function BuildMedAttribute(): seq<byte>
  {
    BuildPathAttribute(ATTR_MED, FLAG_OPTIONAL, WriteUInt32(0))
  }

  /** The attributes every IPv4 UPDATE carries: ORIGIN, AS_PATH, NEXT_HOP
    * (the local address) and MED, in that order. */
  function StandardAttributes(localAs: int, localIp: seq<byte>): seq<byte>
  {
    BuildOriginAttribute() + BuildAsPathAttribute(localAs)
    + BuildPathAttribute(ATTR_NEXT_HOP, FLAG_TRANSITIVE, localIp) + BuildMedAttribute()
  }

  // ---------------------------------------------------------------------
  // Packing prefixes
  // ---------------------------------------------------------------------

  /** A generated route as the builders use it: the octets of its address
    * (ipToBytes of its text) and its mask. */
  datatype NlriRoute = NlriRoute(octets: seq<byte>, mask: byte)

  /** Math.ceil(mask / 8): the octets of the address a prefix keeps. */
  function PrefixBytes(mask: byte): nat
  {
    (mask as int + 7) / 8
  }

  /** nlriLen: what the builders count for one prefix. */
  function EntryLen(r: NlriRoute): nat
  {
    1 + PrefixBytes(r.mask)
  }

  /** `[mask, ...octets.slice(0, Math.ceil(mask / 8))]`; slice stops at the
    * end of the address. */
  function Entry(r: NlriRoute): seq<byte>
  {
    [r.mask] + (if PrefixBytes(r.mask) <= |r.octets| then r.octets[..PrefixBytes(r.mask)] else r.octets)
  }

  /** The address is long enough for the mask, as for every route
    * genRouteIps returns (four octets, mask at most 32). */
  predicate RoutesOk(routes: seq<NlriRoute>)
  {
    forall k :: 0 <= k < |routes| ==> PrefixBytes(routes[k].mask) <= |routes[k].octets|
  }

  /** The index after the last route packed from i when the message so far
    * is msgLen octets long: routes are taken while the next one keeps the
    * length under BGP_MAX_PKT_SIZE. */
  function PackedEnd(routes: seq<NlriRoute>, i: nat, msgLen: int): (end: nat)
    requires i <= |routes|
    ensures i <= end <= |routes|
    decreases |routes| - i
  {
    if i < |routes| && msgLen + EntryLen(routes[i]) < BGP_MAX_PKT_SIZE then
      PackedEnd(routes, i + 1, msgLen + EntryLen(routes[i]))
    else i
  }

  /** The prefixes of routes i..j-1, one after the other. */
  function NlriOf(routes: seq<NlriRoute>, i: nat, j: nat): seq<byte>
    requires i <= j <= |routes|
    decreases j - i
  {
    if i == j then [] else Entry(routes[i]) + NlriOf(routes, i + 1, j)
  }

  /** The octets the builders count for routes i..j-1. */
  function NlriSize(routes: seq<NlriRoute>, i: nat, j: nat): nat
    requires i <= j <= |routes|
    decreases j - i
  {
    if i == j then 0 else EntryLen(routes[i]) + NlriSize(routes, i + 1, j)
  }

  lemma {:induction false} NlriAppend(routes: seq<NlriRoute>, i: nat, j: nat)
    requires i <= j < |routes|
    ensures NlriOf(routes, i, j + 1) == NlriOf(routes, i, j) + Entry(routes[j])
    decreases j - i
  {
    if i < j {
      NlriAppend(routes, i + 1, j);
      assert NlriOf(routes, i, j + 1) == Entry(routes[i]) + NlriOf(routes, i + 1, j + 1);
      assert NlriOf(routes, i, j) == Entry(routes[i]) + NlriOf(routes, i + 1, j);
    } else {
      assert NlriOf(routes, i + 1, j + 1) == [];
    }
  }

  /** For routes whose address covers the mask, the count is the length. */
  lemma {:induction false} NlriLength(routes: seq<NlriRoute>, i: nat, j: nat)
    requires i <= j <= |routes| && RoutesOk(routes)
    ensures |NlriOf(routes, i, j)| == NlriSize(routes, i, j)
    decreases j - i
  {
    if i < j {
      NlriLength(routes, i + 1, j);
    }
  }

  /** Whatever is packed fits: unless nothing was taken, the message stays
    * under BGP_MAX_PKT_SIZE. */
  lemma {:induction false} PackedFits(routes: seq<NlriRoute>, i: nat, msgLen: int)
    requires i <= |routes|
    ensures var e := PackedEnd(routes, i, msgLen);
            e == i || msgLen + NlriSize(routes, i, e) < BGP_MAX_PKT_SIZE
    decreases |routes| - i
  {
    var e := PackedEnd(routes, i, msgLen);
    if e > i {
      PackedFits(routes, i + 1, msgLen + EntryLen(routes[i]));
    }
  }

  /** Packing stops only at the end of the routes or at a route that would
    * reach BGP_MAX_PKT_SIZE. */
  lemma {:induction false} PackedMaximal(routes: seq<NlriRoute>, i: nat, msgLen: int)
    requires i <= |routes|
    ensures var e := PackedEnd(routes, i, msgLen);
            e < |routes| ==> msgLen + NlriSize(routes, i, e) + EntryLen(routes[e]) >= BGP_MAX_PKT_SIZE
    decreases |routes| - i
  {
    var e := PackedEnd(routes, i, msgLen);
    if e > i {
      PackedMaximal(routes, i + 1, msgLen + EntryLen(routes[i]));
    }
  }

  /** The NLRI loop shared by buildUpdateMsgIpv4 and buildWithdrawMsgIpv4.
    * routes[routeIndex] is read before the loop, so a start past the last
    * route throws; the builders check that first. */
  method PackNlri(routes: seq<NlriRoute>, start: nat, msgLen0: int) returns (nlri: seq<byte>, index: nat)
    requires start < |routes|
    ensures index == PackedEnd(routes, start, msgLen0)
    ensures nlri == NlriOf(routes, start, index)
  {
    nlri := [];
    index := start;
    var msgLen := msgLen0;
    var route := routes[index];
    var nlriLen := EntryLen(route);
    while msgLen + nlriLen < BGP_MAX_PKT_SIZE && index < |routes|
      invariant start <= index <= |routes|
      invariant PackedEnd(routes, index, msgLen) == PackedEnd(routes, start, msgLen0)
      invariant nlri == NlriOf(routes, start, index)
      invariant index < |routes| ==> route == routes[index] && nlriLen == EntryLen(route)
      decreases |routes| - index
    {
      var prefixLength := PrefixBytes(route.mask);
      nlri := nlri + [route.mask] + (if prefixLength <= |route.octets| then route.octets[..prefixLength] else route.octets);
      NlriAppend(routes, start, index);
      index := index + 1;
      msgLen := msgLen + nlriLen;
      if index < |routes| {
        route := routes[index];
        nlriLen := EntryLen(route);
      } else {
        break;
      }
    }
  }

  // ---------------------------------------------------------------------
  // UPDATE messages
  // ---------------------------------------------------------------------

  /** The `{status, index, buffer}` the builders return: a message and the
    * index of the first route it leaves out, or failure with the index the
    * loop had reached. */
  datatype BuildResult = Built(index: nat, buffer: seq<byte>) | Failed(index: nat)

  /** A whole message: a marker of ones and a length field equal to its
    * length, of the given type. */
  predicate Framed(m: seq<byte>, msgType: byte)
  {
    |m| >= BGP_HEAD_LEN && MarkerOk(m) && BE16(m, BGP_MARKER_LEN) == |m| && m[BGP_MARKER_LEN + 2] == msgType
  }

  /** buildUpdateMsgIpv4: an empty withdrawn routes field, the standard
    * attributes and the custom ones, then as many prefixes from start as
    * fit. A path attributes field of 65536 octets or more throws in
    * writeUInt16BE, a start past the last route throws at route.mask, and a
    * total length over 65535 throws in the header, after the loop. */
  function UpdateMsgIpv4(routes: seq<NlriRoute>, start: nat, customAttr: seq<byte>,
                         localAs: int, localIp: seq<byte>): (r: BuildResult)
    ensures r.Built? ==> Framed(r.buffer, UPDATE)
    ensures r.index >= start
  {
    UpdateWithAttributes(routes, start, StandardAttributes(localAs, localIp) + customAttr)
  }

  /** The UPDATE for a given path attributes field. */
  function UpdateWithAttributes(routes: seq<NlriRoute>, start: nat, pathAttr: seq<byte>): (r: BuildResult)
    ensures r.Built? ==> Framed(r.buffer, UPDATE)
    ensures r.index >= start
  {
    if |pathAttr| >= TWO_16 || start >= |routes| then Failed(start)
    else
      var end := PackedEnd(routes, start, BGP_HEAD_LEN + 2 + 2 + |pathAttr|);
      AssembleUpdate(pathAttr, end, NlriOf(routes, start, end))
  }

  /** The UPDATE once its prefixes are packed: the header, an empty
    * withdrawn routes field, the path attributes field, the NLRI. */
  function AssembleUpdate(pathAttr: seq<byte>, end: nat, nlri: seq<byte>): (r: BuildResult)
    requires |pathAttr| < TWO_16
    ensures r.Built? ==> Framed(r.buffer, UPDATE)
    ensures r.index == end
  {
    match BuildBgpMessageHeader(BGP_HEAD_LEN + 2 + 2 + |pathAttr| + |nlri|, UPDATE)
    case Threw => Failed(end)
    case Returned(h) => Built(end, h + [0, 0] + WriteUInt16(|pathAttr|) + pathAttr + nlri)
  }

  /** buildUpdateMsgIpv4 */
  method BuildUpdateMsgIpv4(routes: seq<NlriRoute>, routeIndex: nat, customAttr: seq<byte>,
                            localAs: int, localIp: seq<byte>) returns (r: BuildResult)
    ensures r == UpdateMsgIpv4(routes, routeIndex, customAttr, localAs, localIp)
  {
    var pathAttr := StandardAttributes(localAs, localIp) + customAttr;
    r := BuildUpdateWithAttributes(routes, routeIndex, pathAttr);
  }

  /** buildUpdateMsgIpv4 once the path attributes are built. */
  method BuildUpdateWithAttributes(routes: seq<NlriRoute>, routeIndex: nat, pathAttr: seq<byte>) returns (r: BuildResult)
    ensures r == UpdateWithAttributes(routes, routeIndex, pathAttr)
  {
    var withdrawnRoutesBuf := WriteUInt16(0);
    assert withdrawnRoutesBuf == [0, 0];
    if |pathAttr| >= TWO_16 {
      return Failed(routeIndex);
    }
    var pathAttrBuf := WriteUInt16(|pathAttr|) + pathAttr;
    var msgLen := BGP_HEAD_LEN + |withdrawnRoutesBuf| + |pathAttrBuf|;
    if routeIndex >= |routes| {
      return Failed(routeIndex);
    }
    var nlri, index := PackNlri(routes, routeIndex, msgLen);
    assert UpdateWithAttributes(routes, routeIndex, pathAttr) == AssembleUpdate(pathAttr, index, nlri);
    var header := BuildBgpMessageHeader(BGP_HEAD_LEN + |withdrawnRoutesBuf| + |pathAttrBuf| + |nlri|, UPDATE);
    if header.Threw? {
      return Failed(index);
    }
    r := Built(index, header.value + withdrawnRoutesBuf + pathAttrBuf + nlri);
    assert r.buffer == header.value + [0, 0] + WriteUInt16(|pathAttr|) + pathAttr + nlri;
  }

  /** buildWithdrawMsgIpv4: the prefixes from start that fit, as withdrawn
    * routes, and an empty path attributes field. */
  function WithdrawMsgIpv4(routes: seq<NlriRoute>, start: nat): (r: BuildResult)
    ensures r.Built? ==> Framed(r.buffer, UPDATE)
    ensures r.index >= start
  {
    if start >= |routes| then Failed(start)
    else
      var end := PackedEnd(routes, start, BGP_HEAD_LEN + 2 + 2);
      var nlri := NlriOf(routes, start, end);
      if |nlri| >= TWO_16 then Failed(end)
      else
        match BuildBgpMessageHeader(BGP_HEAD_LEN + |nlri| + 2 + 2, UPDATE)
        case Threw => Failed(end)
        case Returned(h) => Built(end, h + WriteUInt16(|nlri|) + nlri + [0, 0])
  }

  /** buildWithdrawMsgIpv4 */
  method BuildWithdrawMsgIpv4(routes: seq<NlriRoute>, routeIndex: nat) returns (r: BuildResult)
    ensures r == WithdrawMsgIpv4(routes, routeIndex)
  {
    var pathAttrBuf := WriteUInt16(0);
    assert pathAttrBuf == [0, 0];
    var msgLen := BGP_HEAD_LEN + |pathAttrBuf| + 2;
    if routeIndex >= |routes| {
      return Failed(routeIndex);
    }
    var withdrawNlri, index := PackNlri(routes, routeIndex, msgLen);
    if |withdrawNlri| >= TWO_16 {
      return Failed(index);
    }
    var withdrawNlriBuf := WriteUInt16(|withdrawNlri|) + withdrawNlri;
    var header := BuildBgpMessageHeader(BGP_HEAD_LEN + |withdrawNlriBuf| + |pathAttrBuf|, UPDATE);
    if header.Threw? {
      return Failed(index);
    }
    r := Built(index, header.value + withdrawNlriBuf + pathAttrBuf);
    assert r.buffer == header.value + WriteUInt16(|withdrawNlri|) + withdrawNlri + [0, 0];
  }

  // ---------------------------------------------------------------------
  // What the messages hold
  // ---------------------------------------------------------------------

  /** A prefix is never longer than the builders count it. */
  lemma {:induction false} NlriAtMost(routes: seq<NlriRoute>, i: nat, j: nat)
    requires i <= j <= |routes|
    ensures |NlriOf(routes, i, j)| <= NlriSize(routes, i, j)
    decreases j - i
  {
    if i < j {
      NlriAtMost(routes, i + 1, j);
    }
  }

  /** An UPDATE that announces anything stays under BGP_MAX_PKT_SIZE; for
    * well-formed routes it also leaves out only a route that would have
    * reached it. */
  lemma UpdateMsgFits(routes: seq<NlriRoute>, start: nat, pathAttr: seq<byte>)
    ensures var r := UpdateWithAttributes(routes, start, pathAttr);
            r.Built? && r.index > start ==> |r.buffer| < BGP_MAX_PKT_SIZE
    ensures var r := UpdateWithAttributes(routes, start, pathAttr);
            r.Built? && r.index < |routes| && RoutesOk(routes) ==>
              |r.buffer| + EntryLen(routes[r.index]) >= BGP_MAX_PKT_SIZE
  {
    var r := UpdateWithAttributes(routes, start, pathAttr);
    if r.Built? {
      var msgLen := BGP_HEAD_LEN + 2 + 2 + |pathAttr|;
      PackedFits(routes, start, msgLen);
      PackedMaximal(routes, start, msgLen);
      NlriAtMost(routes, start, r.index);
      if RoutesOk(routes) {
        NlriLength(routes, start, r.index);
      }
    }
  }

  /** Every route has a mask of at most 255 bits, so one prefix always fits
    * in a WITHDRAW: each message withdraws at least one route, and stays
    * under BGP_MAX_PKT_SIZE. */
  lemma WithdrawProgress(routes: seq<NlriRoute>, start: nat)
    requires start < |routes|
    ensures var r := WithdrawMsgIpv4(routes, start);
            r.Built? && r.index > start && |r.buffer| < BGP_MAX_PKT_SIZE
  {
    var msgLen := BGP_HEAD_LEN + 2 + 2;
    var end := PackedEnd(routes, start, msgLen);
    assert end > start;
    PackedFits(routes, start, msgLen);
    NlriAtMost(routes, start, end);
  }

  /** The prefix the parser reports for a route's entry. */
  function PrefixOf(r: NlriRoute): Prefix
  {
    Prefix(DottedDecimal(PrefixOctets(Entry(r)[1..], r.mask)), r.mask)
  }

  function PrefixesOf(routes: seq<NlriRoute>, i: nat, j: nat): (r: seq<Prefix>)
    requires i <= j <= |routes|
    ensures |r| == j - i
    decreases j - i
  {
    if i == j then [] else [PrefixOf(routes[i])] + PrefixesOf(routes, i + 1, j)
  }

  /** Packed prefixes read back, in order, as the routes they came from. */
  lemma {:induction false} NlriReadBack(b: seq<byte>, pos: nat, end: nat, routes: seq<NlriRoute>, i: nat, j: nat)
    requires i <= j <= |routes| && RoutesOk(routes)
    requires pos <= end <= |b| && b[pos..end] == NlriOf(routes, i, j)
    ensures PrefixesFrom(b, pos, end) == Returned(PrefixScan(PrefixesOf(routes, i, j), end))
    decreases j - i
  {
    if i == j {
      NoEntriesReadBack(b, pos, end, routes, i);
    } else {
      var mid := FirstEntryReadBack(b, pos, end, routes, i, j);
      NlriReadBack(b, mid, end, routes, i + 1, j);
    }
  }

  lemma NoEntriesReadBack(b: seq<byte>, pos: nat, end: nat, routes: seq<NlriRoute>, i: nat)
    requires i <= |routes|
    requires pos <= end <= |b| && b[pos..end] == NlriOf(routes, i, i)
    ensures PrefixesFrom(b, pos, end) == Returned(PrefixScan(PrefixesOf(routes, i, i), end))
  {
    assert |b[pos..end]| == 0;
  }

  /** The first of the packed prefixes reads back as its route, and the
    * others follow it. */
  lemma FirstEntryReadBack(b: seq<byte>, pos: nat, end: nat, routes: seq<NlriRoute>, i: nat, j: nat)
    returns (mid: nat)
    requires i < j <= |routes| && RoutesOk(routes)
    requires pos <= end <= |b| && b[pos..end] == NlriOf(routes, i, j)
    ensures mid <= end && b[mid..end] == NlriOf(routes, i + 1, j)
    ensures PrefixesFrom(b, mid, end) == Returned(PrefixScan(PrefixesOf(routes, i + 1, j), end)) ==>
            PrefixesFrom(b, pos, end) == Returned(PrefixScan(PrefixesOf(routes, i, j), end))
  {
    mid := pos + |Entry(routes[i])|;
    SliceSplit(b, pos, mid, end, Entry(routes[i]), NlriOf(routes, i + 1, j));
    EntryReadBack(b, pos, end, routes[i], PrefixOf(routes[i]), mid);
  }

  lemma SliceSplit(b: seq<byte>, pos: nat, mid: nat, end: nat, x: seq<byte>, y: seq<byte>)
    requires pos <= end <= |b| && b[pos..end] == x + y && mid == pos + |x|
    ensures b[pos..mid] == x && b[mid..end] == y
  {
    assert b[pos..mid] == b[pos..end][..|x|];
    assert b[mid..end] == b[pos..end][|x|..];
  }

  /** One packed prefix reads back as its route. */
  lemma EntryReadBack(b: seq<byte>, pos: nat, end: nat, r: NlriRoute, p: Prefix, next: nat)
    requires PrefixBytes(r.mask) <= |r.octets|
    requires next == pos + |Entry(r)| && p == PrefixOf(r)
    requires next <= end && next <= |b| && b[pos..next] == Entry(r)
    ensures PrefixesFrom(b, pos, end) == PrependPrefixes([p], PrefixesFrom(b, next, end))
  {
    EntryAt(b, pos, r);
    PrefixesCons(b, pos, end, p, next);
  }

  lemma EntryAt(b: seq<byte>, pos: nat, r: NlriRoute)
    requires PrefixBytes(r.mask) <= |r.octets|
    requires pos + |Entry(r)| <= |b| && b[pos..pos + |Entry(r)|] == Entry(r)
    ensures PrefixAt(b, pos) == PrefixStep(PrefixOf(r), pos + |Entry(r)|)
  {
    var e := Entry(r);
    var p := b[..pos];
    var rest := b[pos + |e|..];
    assert e == EncodePrefix(e[1..], r.mask);
    assert b == p + e + rest;
    PrefixRoundTrip(p, e[1..], r.mask, rest);
  }

  lemma PrefixesCons(b: seq<byte>, pos: nat, end: nat, p: Prefix, next: nat)
    requires pos < end && pos < |b| && PrefixAt(b, pos) == PrefixStep(p, next)
    ensures PrefixesFrom(b, pos, end) == PrependPrefixes([p], PrefixesFrom(b, next, end))
  {
    PrefixesStep(b, pos, end);
  }

  /** A WITHDRAW the simulator sends parses back as an UPDATE withdrawing
    * exactly the routes it packed, with no attributes and no NLRI. */
  lemma WithdrawRoundTrip(routes: seq<NlriRoute>, start: nat)
    requires start < |routes| && RoutesOk(routes)
    ensures var r := WithdrawMsgIpv4(routes, start);
            r.Built? &&
            UpdateOf(r.buffer) == Returned(Update(|NlriOf(routes, start, r.index)|, PrefixesOf(routes, start, r.index),
                                                  0, [], []))
  {
    WithdrawProgress(routes, start);
    var r := WithdrawMsgIpv4(routes, start);
    var nlri := NlriOf(routes, start, r.index);
    var b := r.buffer;
    var h := BuildBgpMessageHeader(BGP_HEAD_LEN + |nlri| + 2 + 2, UPDATE).value;
    var end := BGP_HEAD_LEN + 2 + |nlri|;
    WithdrawLayout(b, h, nlri);
    NlriReadBack(b, BGP_HEAD_LEN + 2, end, routes, start, r.index);
    WithdrawnOnly(b, |nlri|, PrefixesOf(routes, start, r.index));
  }

  /** Where the fields of a WITHDRAW sit. */
  lemma WithdrawLayout(b: seq<byte>, h: seq<byte>, nlri: seq<byte>)
    requires |h| == BGP_HEAD_LEN && |nlri| < TWO_16
    requires b == h + WriteUInt16(|nlri|) + nlri + [0, 0]
    ensures |b| == BGP_HEAD_LEN + 2 + |nlri| + 2
    ensures BE16(b, BGP_HEAD_LEN) == |nlri| && BE16(b, BGP_HEAD_LEN + 2 + |nlri|) == 0
    ensures b[BGP_HEAD_LEN + 2..BGP_HEAD_LEN + 2 + |nlri|] == nlri
  {
    var end := BGP_HEAD_LEN + 2 + |nlri|;
    assert b[BGP_HEAD_LEN] == WriteUInt16(|nlri|)[0] && b[BGP_HEAD_LEN + 1] == WriteUInt16(|nlri|)[1];
    assert b[end] == 0 && b[end + 1] == 0;
  }

  /** A message whose withdrawn routes field holds n octets of prefixes
    * and whose path attributes field is empty and last. */
  lemma WithdrawnOnly(b: seq<byte>, n: nat, prefixes: seq<Prefix>)
    requires |b| == BGP_HEAD_LEN + 2 + n + 2
    requires BE16(b, BGP_HEAD_LEN) == n && BE16(b, BGP_HEAD_LEN + 2 + n) == 0
    requires PrefixesFrom(b, BGP_HEAD_LEN + 2, BGP_HEAD_LEN + 2 + n)
             == Returned(PrefixScan(prefixes, BGP_HEAD_LEN + 2 + n))
    ensures UpdateOf(b) == Returned(Update(n, prefixes, 0, [], []))
  {
    var end := BGP_HEAD_LEN + 2 + n;
    assert UpdateOf(b) == UpdateAfterWithdrawn(b, n, PrefixScan(prefixes, end));
    assert AttributesFrom(b, end + 2, end + 2) == Returned(AttrScan([], Some(end + 2)));
    assert NlriAfter(b, Some(|b|)) == [];
  }

  /** The attributes the parser reports for StandardAttributes: ORIGIN IGP,
    * an AS_SEQUENCE of the local AS, the local next hop, MED 0. */
  function StandardAttributeList(localAs: int, localIp: seq<byte>): seq<Attribute>
  {
    [Attribute(Some(FLAG_TRANSITIVE), Some(ATTR_ORIGIN), Some(1), [0], NoDetail),
     Attribute(Some(FLAG_TRANSITIVE), Some(ATTR_AS_PATH), Some(6), [2, 1] + WriteUInt32(localAs),
               Segments([Segment(2, [localAs])])),
     Attribute(Some(FLAG_TRANSITIVE), Some(ATTR_NEXT_HOP), Some(|localIp|), localIp, NoDetail),
     Attribute(Some(FLAG_OPTIONAL), Some(ATTR_MED), Some(4), WriteUInt32(0), Number(0))]
  }

  /** An UPDATE the simulator sends without custom attributes always
    * announces at least one route, and parses back as no withdrawn routes,
    * the four standard attributes and exactly the routes it packed. */
  lemma AnnounceRoundTrip(routes: seq<NlriRoute>, start: nat, localAs: int, localIp: seq<byte>)
    requires start < |routes| && RoutesOk(routes)
    requires 0 <= localAs < TWO_32 && |localIp| == 4
    ensures var r := UpdateMsgIpv4(routes, start, [], localAs, localIp);
            r.Built? && r.index > start &&
            UpdateOf(r.buffer) == Returned(Update(0, [], 27, StandardAttributeList(localAs, localIp),
                                                  PrefixesOf(routes, start, r.index)))
  {
    var pa := StandardAttributes(localAs, localIp);
    assert |pa| == 27;
    assert pa + [] == pa;
    var msgLen := BGP_HEAD_LEN + 2 + 2 + 27;
    var end := PackedEnd(routes, start, msgLen);
    assert end > start;
    PackedFits(routes, start, msgLen);
    NlriAtMost(routes, start, end);
    var nlri := NlriOf(routes, start, end);
    var r := UpdateMsgIpv4(routes, start, [], localAs, localIp);
    assert r == AssembleUpdate(pa, end, nlri);
    var h := BuildBgpMessageHeader(BGP_HEAD_LEN + 2 + 2 + |pa| + |nlri|, UPDATE).value;
    var b := r.buffer;
    assert b == h + [0, 0] + WriteUInt16(|pa|) + pa + nlri;
    var attrEnd := BGP_HEAD_LEN + 4 + 27;
    UpdateLayout(b, h, pa, nlri);
    StandardAttributesRead(b, BGP_HEAD_LEN + 4, attrEnd, localAs, localIp);
    NlriReadBack(b, attrEnd, |b|, routes, start, end);
    AnnouncedOnly(b, 27, StandardAttributeList(localAs, localIp), PrefixesOf(routes, start, end));
  }

  /** Where the fields of an UPDATE with no withdrawn routes sit. */
  lemma UpdateLayout(b: seq<byte>, h: seq<byte>, pa: seq<byte>, nlri: seq<byte>)
    requires |h| == BGP_HEAD_LEN && |pa| < TWO_16
    requires b == h + [0, 0] + WriteUInt16(|pa|) + pa + nlri
    ensures |b| == BGP_HEAD_LEN + 4 + |pa| + |nlri|
    ensures BE16(b, BGP_HEAD_LEN) == 0 && BE16(b, BGP_HEAD_LEN + 2) == |pa|
    ensures b[BGP_HEAD_LEN + 4..BGP_HEAD_LEN + 4 + |pa|] == pa
    ensures b[BGP_HEAD_LEN + 4 + |pa|..|b|] == nlri
  {
    assert b[BGP_HEAD_LEN] == 0 && b[BGP_HEAD_LEN + 1] == 0;
    assert b[BGP_HEAD_LEN + 2] == WriteUInt16(|pa|)[0] && b[BGP_HEAD_LEN + 3] == WriteUInt16(|pa|)[1];
  }

  /** A message with an empty withdrawn routes field, a path attributes
    * field of n octets that reads as attributes, and prefixes after it. */
  lemma AnnouncedOnly(b: seq<byte>, n: nat, attributes: seq<Attribute>, prefixes: seq<Prefix>)
    requires |b| >= BGP_HEAD_LEN + 4 + n
    requires BE16(b, BGP_HEAD_LEN) == 0 && BE16(b, BGP_HEAD_LEN + 2) == n
    requires AttributesFrom(b, BGP_HEAD_LEN + 4, BGP_HEAD_LEN + 4 + n)
             == Returned(AttrScan(attributes, Some(BGP_HEAD_LEN + 4 + n)))
    requires PrefixesFrom(b, BGP_HEAD_LEN + 4 + n, |b|) == Returned(PrefixScan(prefixes, |b|))
    ensures UpdateOf(b) == Returned(Update(0, [], n, attributes, prefixes))
  {
    var w := PrefixScan([], BGP_HEAD_LEN + 2);
    assert PrefixesFrom(b, BGP_HEAD_LEN + 2, BGP_HEAD_LEN + 2) == Returned(w);
    assert UpdateOf(b) == UpdateAfterWithdrawn(b, 0, w);
  }

  /** The four standard attributes read back as StandardAttributeList. */
  lemma StandardAttributesRead(b: seq<byte>, pos: nat, end: nat, localAs: int, localIp: seq<byte>)
    requires 0 <= localAs < TWO_32 && |localIp| == 4
    requires end == pos + 27 && end <= |b| && b[pos..end] == StandardAttributes(localAs, localIp)
    ensures AttributesFrom(b, pos, end) == Returned(AttrScan(StandardAttributeList(localAs, localIp), Some(end)))
  {
    var o := BuildOriginAttribute();
    var a := BuildAsPathAttribute(localAs);
    var n := BuildPathAttribute(ATTR_NEXT_HOP, FLAG_TRANSITIVE, localIp);
    var m := BuildMedAttribute();
    var list := StandardAttributeList(localAs, localIp);
    assert |o| == 4 && |a| == 9 && |n| == 7 && |m| == 7;
    var p1, p2, p3 := pos + 4, pos + 13, pos + 20;
    assert b[pos..end] == o + (a + (n + m));
    SliceSplit(b, pos, p1, end, o, a + (n + m));
    SliceSplit(b, p1, p2, end, a, n + m);
    SliceSplit(b, p2, p3, end, n, m);
    StandardFlags();
    PathAttributeReadBack(b, pos, ATTR_ORIGIN, FLAG_TRANSITIVE, [0]);
    PathAttributeReadBack(b, p1, ATTR_AS_PATH, FLAG_TRANSITIVE, [2, 1] + WriteUInt32(localAs));
    PathAttributeReadBack(b, p2, ATTR_NEXT_HOP, FLAG_TRANSITIVE, localIp);
    PathAttributeReadBack(b, p3, ATTR_MED, FLAG_OPTIONAL, WriteUInt32(0));
    StandardDetails(localAs, localIp);
    AttributesCons(b, pos, end, list[0], p1);
    AttributesCons(b, p1, end, list[1], p2);
    AttributesCons(b, p2, end, list[2], p3);
    AttributesCons(b, p3, end, list[3], end);
    assert AttributesFrom(b, end, end) == Returned(AttrScan([], Some(end)));
    assert list == [list[0]] + ([list[1]] + ([list[2]] + ([list[3]] + [])));
  }

  /** Neither TRANSITIVE nor OPTIONAL has the Extended Length bit. */
  lemma StandardFlags()
    ensures !IsExtended(Some(FLAG_TRANSITIVE)) && !IsExtended(Some(FLAG_OPTIONAL))
  {
    Pow2Values();
  }

  /** What the parser decodes from each standard attribute's value. */
  lemma StandardDetails(localAs: int, localIp: seq<byte>)
    requires 0 <= localAs < TWO_32
    ensures DetailOf(Some(ATTR_ORIGIN), [0]) == Returned(NoDetail)
    ensures DetailOf(Some(ATTR_AS_PATH), [2, 1] + WriteUInt32(localAs)) == Returned(Segments([Segment(2, [localAs])]))
    ensures DetailOf(Some(ATTR_NEXT_HOP), localIp) == Returned(NoDetail)
    ensures DetailOf(Some(ATTR_MED), WriteUInt32(0)) == Returned(Number(0))
  {
    var segments := [Segment(2, [localAs])];
    assert AllWellFormed(segments) by {
      assert segments[1..] == [];
    }
    assert Octets32([localAs]) == WriteUInt32(localAs) by {
      assert [localAs][1..] == [];
    }
    assert EncodeSegments(segments) == [2, 1] + WriteUInt32(localAs) by {
      assert segments[1..] == [];
    }
    SegmentsRoundTrip(segments);
  }

  lemma AttributesCons(b: seq<byte>, pos: nat, end: nat, a: Attribute, next: nat)
    requires pos < end && AttributeAt(b, pos) == Returned(AttrStep(a, Some(next)))
    ensures AttributesFrom(b, pos, end) == PrependAttributes([a], AttributesFrom(b, next, end))
  {
  }
}
