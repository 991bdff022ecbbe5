/** The BGP simulator's session (electron/worker/bgpSimulatorWorker.js): the
  * finite state machine driven by received messages, the receive buffer cut
  * into whole messages, and the requests that announce or withdraw a run of
  * generated IPv4 routes once the session is Established. */
module BgpSimulatorWorker {
  import opened Base
  import opened IpUtils
  import opened BgpPacketParser
  import opened BgpWorkerMessages

  /** The six states of RFC 4271 section 8.2.2. */
  datatype BgpState = Idle | Connect | Active | OpenSent | OpenConfirm | Established

  type Ipv4Octets = s: seq<byte> | |s| == 4 witness [0, 0, 0, 0]

  /** An IPv4 route request: the first prefix, the mask, how many routes,
    * and the custom path attributes as octets (empty when none). */
  datatype RouteConfig = RouteConfig(prefix: Ipv4Octets, mask: int, count: int, customAttr: seq<byte>)

  /** How a request or a received message ends: refused outside
    * Established, carried out, or with an exception thrown. */
  datatype Reply = Rejected | Accepted | Raised

  /** The worker's state as a value: FSM state, receive buffer, the stored
    * IPv4 request (sendRouteV4), whether a peer socket is attached, and the
    * messages written to it so far. */
  datatype Session = Session(state: BgpState, buffer: seq<byte>, stored: Option<RouteConfig>,
                             open: bool, written: seq<seq<byte>>)

  datatype Step = Step(session: Session, reply: Reply)

  // ---------------------------------------------------------------------
  // Routes of a request
  // ---------------------------------------------------------------------

  /** The routes genRouteIps generates for a request, each with the octets
    * its dotted text was printed from: none for a count of zero or less, a
    * throw for a mask outside 0..32. */
  function AnnouncedRoutes(config: RouteConfig): (r: Outcome<seq<NlriRoute>>)
    ensures r.Threw? <==> config.count > 0 && !(0 <= config.mask <= 32)
    ensures r.Returned? ==> |r.value| == (if config.count > 0 then config.count else 0) && RoutesOk(r.value)
  {
    if config.count <= 0 then Returned([])
    else if !(0 <= config.mask <= 32) then Threw
    else
      var routes := seq(config.count, i requires 0 <= i < config.count =>
                          NlriRoute(RouteOctets(config.prefix, config.mask, i), config.mask as byte));
      assert RoutesOk(routes) by {
        forall k | 0 <= k < |routes| ensures PrefixBytes(routes[k].mask) <= |routes[k].octets| {
        }
      }
      Returned(routes)
  }

  /** The k-th route is the k-th route genRouteIps prints. */
  lemma AnnouncedIsGenerated(config: RouteConfig, k: nat)
    requires config.count > 0 && 0 <= config.mask <= 32 && k < config.count
    ensures var g := RouteList(config.prefix, config.mask, config.count)[k];
            var r := AnnouncedRoutes(config).value[k];
            g.ip == DottedDecimal(r.octets) && g.mask == r.mask
  {
    RouteListAt(config.prefix, config.mask, config.count, k);
  }

  // ---------------------------------------------------------------------
  // The messages a request writes
  // ---------------------------------------------------------------------

  /** The messages a send loop writes from index i on, when build(k) is
    * the message built from index k: one per message that moves past its
    * index, until one fails or, unlike the source, moves nowhere. */
  function Messages(build: nat -> BuildResult, n: nat, i: nat): seq<seq<byte>>
    decreases n - i
  {
    if i >= n then []
    else
      match build(i)
      case Failed(_) => []
      case Built(next, buffer) => if next <= i then [] else [buffer] + Messages(build, n, next)
  }

  function UpdateBuilder(routes: seq<NlriRoute>, customAttr: seq<byte>, localAs: int, localIp: seq<byte>): nat -> BuildResult
  {
    (k: nat) => UpdateMsgIpv4(routes, k, customAttr, localAs, localIp)
  }

  function WithdrawBuilder(routes: seq<NlriRoute>): nat -> BuildResult
  {
    (k: nat) => WithdrawMsgIpv4(routes, k)
  }

  /** The UPDATE messages sendRoute writes for routes[i..]. */
  function UpdateMessages(routes: seq<NlriRoute>, i: nat, customAttr: seq<byte>,
                          localAs: int, localIp: seq<byte>): seq<seq<byte>>
  {
    Messages(UpdateBuilder(routes, customAttr, localAs, localIp), |routes|, i)
  }

  /** The withdrawing UPDATE messages withdrawRoute writes for routes[i..]. */
  function WithdrawMessages(routes: seq<NlriRoute>, i: nat): seq<seq<byte>>
  {
    Messages(WithdrawBuilder(routes), |routes|, i)
  }

  /** One turn of a send loop, for the message built at i. */
  lemma MessagesStep(build: nat -> BuildResult, n: nat, i: nat, result: BuildResult)
    requires i < n && result == build(i)
    ensures Messages(build, n, i)
            == if result.Failed? || result.index <= i then [] else [result.buffer] + Messages(build, n, result.index)
  {
  }

  /** One turn of withdrawRoute's loop: the message built at i always
    * withdraws at least one route. */
  lemma WithdrawMessagesStep(routes: seq<NlriRoute>, i: nat, result: BuildResult)
    requires i < |routes| && result == WithdrawMsgIpv4(routes, i)
    ensures result.Built? && result.index > i
    ensures WithdrawMessages(routes, i) == [result.buffer] + WithdrawMessages(routes, result.index)
  {
    WithdrawProgress(routes, i);
    MessagesStep(WithdrawBuilder(routes), |routes|, i, result);
  }

  /** The routes a list of UPDATE messages announces, in order. */
  function AnnouncedPrefixes(msgs: seq<seq<byte>>): seq<Prefix>
  {
    if msgs == [] then []
    else
      (match UpdateOf(msgs[0]) case Returned(u) => u.nlri case Threw => [])
      + AnnouncedPrefixes(msgs[1..])
  }

  /** The routes a list of UPDATE messages withdraws, in order. */
  function WithdrawnPrefixes(msgs: seq<seq<byte>>): seq<Prefix>
  {
    if msgs == [] then []
    else
      (match UpdateOf(msgs[0]) case Returned(u) => u.withdrawnRoutes case Threw => [])
      + WithdrawnPrefixes(msgs[1..])
  }

  lemma {:induction false} PrefixesOfAppend(routes: seq<NlriRoute>, i: nat, j: nat, k: nat)
    requires i <= j <= k <= |routes|
    ensures PrefixesOf(routes, i, j) + PrefixesOf(routes, j, k) == PrefixesOf(routes, i, k)
    decreases j - i
  {
    if i < j {
      var head, left, right := [PrefixOf(routes[i])], PrefixesOf(routes, i + 1, j), PrefixesOf(routes, j, k);
      PrefixesOfAppend(routes, i + 1, j, k);
      assert (head + left) + right == head + (left + right);
    }
  }

  /** Without custom attributes every route from i on is announced, once
    * and in order, each message with the standard attributes. */
  lemma {:induction false} AnnounceAll(routes: seq<NlriRoute>, i: nat, localAs: int, localIp: seq<byte>)
    requires i <= |routes| && RoutesOk(routes)
    requires 0 <= localAs < TWO_32 && |localIp| == 4
    ensures AnnouncedPrefixes(UpdateMessages(routes, i, [], localAs, localIp)) == PrefixesOf(routes, i, |routes|)
    decreases |routes| - i
  {
    if i < |routes| {
      AnnounceRoundTrip(routes, i, localAs, localIp);
      var r := UpdateMsgIpv4(routes, i, [], localAs, localIp);
      var rest := UpdateMessages(routes, r.index, [], localAs, localIp);
      AnnounceAll(routes, r.index, localAs, localIp);
      var msgs := UpdateMessages(routes, i, [], localAs, localIp);
      MessagesStep(UpdateBuilder(routes, [], localAs, localIp), |routes|, i, r);
      assert msgs == [r.buffer] + rest;
      assert msgs[1..] == rest;
      assert AnnouncedPrefixes(msgs) == PrefixesOf(routes, i, r.index) + AnnouncedPrefixes(rest);
      PrefixesOfAppend(routes, i, r.index, |routes|);
    }
  }

  /** Every route from i on is withdrawn, once and in order. */
  lemma {:induction false} WithdrawAll(routes: seq<NlriRoute>, i: nat)
    requires i <= |routes| && RoutesOk(routes)
    ensures WithdrawnPrefixes(WithdrawMessages(routes, i)) == PrefixesOf(routes, i, |routes|)
    decreases |routes| - i
  {
    if i < |routes| {
      WithdrawRoundTrip(routes, i);
      var r := WithdrawMsgIpv4(routes, i);
      WithdrawMessagesStep(routes, i, r);
      var rest := WithdrawMessages(routes, r.index);
      WithdrawAll(routes, r.index);
      var msgs := WithdrawMessages(routes, i);
      assert msgs == [r.buffer] + rest;
      assert msgs[1..] == rest;
      assert WithdrawnPrefixes(msgs) == PrefixesOf(routes, i, r.index) + WithdrawnPrefixes(rest);
      PrefixesOfAppend(routes, i, r.index, |routes|);
    }
  }

  // ---------------------------------------------------------------------
  // Session operations as functions
  // ---------------------------------------------------------------------

  /** Writing messages to the peer socket throws when none is attached. */
  function WriteAll(s: Session, msgs: seq<seq<byte>>): (r: Step)
    ensures r.session.buffer == s.buffer && r.session.state == s.state && r.session.stored == s.stored
    ensures r.reply == Raised <==> msgs != [] && !s.open
    ensures r.reply != Raised ==> r.session.written == s.written + msgs
  {
    if msgs == [] then Step(s, Accepted)
    else if !s.open then Step(s, Raised)
    else Step(s.(written := s.written + msgs), Accepted)
  }

  /** sendRoute for an IPv4 request. */
  function SendRouteSpec(s: Session, config: RouteConfig, localAs: int, localIp: seq<byte>): (r: Step)
    ensures r.session.buffer == s.buffer && r.session.state == s.state && r.session.open == s.open
  {
    if s.state != Established then Step(s, Rejected)
    else
      match AnnouncedRoutes(config)
      case Threw => Step(s, Raised)
      case Returned(routes) =>
        if routes == [] then Step(s, Accepted)
        else WriteAll(s.(stored := Some(config)), UpdateMessages(routes, 0, config.customAttr, localAs, localIp))
  }

  /** withdrawRoute for an IPv4 request. */
  function WithdrawRouteSpec(s: Session, config: RouteConfig): (r: Step)
    ensures r.session.buffer == s.buffer && r.session.state == s.state && r.session.open == s.open
  {
    if s.state != Established then Step(s, Rejected)
    else
      match AnnouncedRoutes(config)
      case Threw => Step(s, Raised)
      case Returned(routes) =>
        if routes == [] then Step(s, Accepted)
        else WriteAll(s.(stored := None), WithdrawMessages(routes, 0))
  }

  /** A request re-sent on the worker's own initiative: a refusal is not an
    * error there, a throw still is. */
  function Resend(s: Session, localAs: int, localIp: seq<byte>): (r: Step)
    ensures r.session.buffer == s.buffer && r.reply != Rejected
  {
    match s.stored
    case None => Step(s, Accepted)
    case Some(config) =>
      var t := SendRouteSpec(s, config, localAs, localIp);
      if t.reply == Raised then t else Step(t.session, Accepted)
  }

  /** What one received message of the given type does. */
  function OnPacketSpec(s: Session, msgType: byte, localAs: int, localIp: seq<byte>): (r: Step)
    ensures r.session.buffer == s.buffer && r.reply != Rejected
  {
    if msgType == OPEN then
      var t := WriteAll(s, [BuildKeepAliveMsg()]);
      if t.reply == Raised then t else Step(t.session.(state := OpenConfirm), Accepted)
    else if msgType == KEEPALIVE then
      var t := WriteAll(s, [BuildKeepAliveMsg()]);
      if t.reply == Raised || s.state == Established then t
      else Resend(t.session.(state := Established), localAs, localIp)
    else if msgType == NOTIFICATION then
      Step(s.(state := Idle, open := false), Accepted)
    else if msgType == ROUTE_REFRESH then
      Resend(s, localAs, localIp)
    else
      Step(s, Accepted)
  }

  /** The declared length of the message at the head of the buffer, when a
    * whole header is there. */
  function DeclaredLength(b: seq<byte>): (r: Option<int>)
    ensures r.Some? <==> |b| >= BGP_HEAD_LEN
  {
    match ParseBgpHeader(b)
    case None => None
    case Some(h) => Some(h.length)
  }

  /** handleBgpPacket's loop, for a handler of one message: handle every
    * whole message at the head of the buffer and drop it, until a message
    * is incomplete or, unlike the source, declares length 0. A declared
    * length from 1 to 18 is handled by its type octet and drops that many
    * octets, as in the source. A throw leaves the message that raised it
    * in the buffer. */
  function DrainWith(handle: (Session, byte) -> Step, s: Session): Step
    decreases |s.buffer|
  {
    if Incomplete(s.buffer) then Step(s, Accepted)
    else
      var t := handle(s, s.buffer[BGP_MARKER_LEN + 2]);
      if t.reply == Raised then t
      else DrainWith(handle, t.session.(buffer := s.buffer[BE16(s.buffer, BGP_MARKER_LEN)..]))
  }

  function Handler(localAs: int, localIp: seq<byte>): (Session, byte) -> Step
  {
    (s: Session, msgType: byte) => OnPacketSpec(s, msgType, localAs, localIp)
  }

  /** The loop with the simulator's own handler. */
  function Drain(s: Session, localAs: int, localIp: seq<byte>): Step
  {
    DrainWith(Handler(localAs, localIp), s)
  }

  /** handleBgpPacket */
  function HandleSpec(s: Session, data: seq<byte>, localAs: int, localIp: seq<byte>): Step
  {
    Drain(s.(buffer := s.buffer + data), localAs, localIp)
  }

  /** A connection accepted: CONNECT, the OPEN written, OPEN_SENT. The
    * receive buffer is kept as it was. */
  function ConnectedSpec(s: Session, openMsg: seq<byte>): (r: Session)
    ensures r.open && r.state == OpenSent && r.written == s.written + [openMsg] && r.buffer == s.buffer
  {
    s.(open := true, state := OpenSent, written := s.written + [openMsg])
  }

  // ---------------------------------------------------------------------
  // Properties of the session
  // ---------------------------------------------------------------------

  /** A stored request is one that generated routes without throwing. */
  predicate ValidSession(s: Session)
  {
    s.stored.Some? ==> s.stored.value.count > 0 && 0 <= s.stored.value.mask <= 32
  }

  /** Requests refused outside Established change nothing. */
  lemma RequestsNeedEstablished(s: Session, config: RouteConfig, localAs: int, localIp: seq<byte>)
    requires s.state != Established
    ensures SendRouteSpec(s, config, localAs, localIp) == Step(s, Rejected)
    ensures WithdrawRouteSpec(s, config) == Step(s, Rejected)
  {
  }

  lemma SendRouteKeepsValid(s: Session, config: RouteConfig, localAs: int, localIp: seq<byte>)
    requires ValidSession(s)
    ensures ValidSession(SendRouteSpec(s, config, localAs, localIp).session)
    ensures ValidSession(WithdrawRouteSpec(s, config).session)
  {
  }

  /** A stored request re-sends without throwing while the socket is open,
    * and writes its messages. */
  lemma ResendWrites(s: Session, localAs: int, localIp: seq<byte>)
    requires ValidSession(s) && s.open && s.state == Established
    ensures var r := Resend(s, localAs, localIp);
            r.reply == Accepted && r.session.state == Established && ValidSession(r.session) &&
            r.session.written == s.written +
              (match s.stored
               case None => []
               case Some(c) => UpdateMessages(AnnouncedRoutes(c).value, 0, c.customAttr, localAs, localIp))
  {
  }

  /** KEEPALIVE answered outside Established: a KEEPALIVE back, the session
    * Established, the stored request announced. */
  lemma KeepAliveEstablishes(s: Session, localAs: int, localIp: seq<byte>)
    requires ValidSession(s) && s.open && s.state != Established
    ensures var r := OnPacketSpec(s, KEEPALIVE, localAs, localIp);
            r.reply == Accepted && r.session.state == Established && ValidSession(r.session) &&
            r.session.written == s.written + [BuildKeepAliveMsg()] +
              (match s.stored
               case None => []
               case Some(c) => UpdateMessages(AnnouncedRoutes(c).value, 0, c.customAttr, localAs, localIp))
  {
    var t := WriteAll(s, [BuildKeepAliveMsg()]);
    ResendWrites(t.session.(state := Established), localAs, localIp);
  }

  /** OPEN moves to OpenConfirm, NOTIFICATION to Idle with the socket closed. */
  lemma StateTransitions(s: Session, localAs: int, localIp: seq<byte>)
    ensures s.open ==> OnPacketSpec(s, OPEN, localAs, localIp).session.state == OpenConfirm
    ensures OnPacketSpec(s, NOTIFICATION, localAs, localIp).session.state == Idle
    ensures !OnPacketSpec(s, NOTIFICATION, localAs, localIp).session.open
  {
  }

  /** rest is what is left of b after cutting off messages one at a time,
    * each at the length the header at the head of the buffer declares;
    * that length is not 0 and may be shorter than the header. */
  predicate FramesThen(b: seq<byte>, rest: seq<byte>)
    decreases |b|
  {
    b == rest ||
    (|b| >= BGP_HEAD_LEN && 0 < BE16(b, BGP_MARKER_LEN) <= |b| && FramesThen(b[BE16(b, BGP_MARKER_LEN)..], rest))
  }

  /** What is left after cutting off messages is the end of the buffer. */
  lemma {:induction false} FramesThenSuffix(b: seq<byte>, rest: seq<byte>)
    requires FramesThen(b, rest)
    ensures |rest| <= |b| && rest == b[|b| - |rest|..]
    decreases |b|
  {
    if b != rest {
      var len := BE16(b, BGP_MARKER_LEN);
      FramesThenSuffix(b[len..], rest);
      assert b[len..][|b| - len - |rest|..] == b[|b| - |rest|..];
    }
  }

  /** What stays in the buffer when nothing was thrown: too short for a
    * header, a message not yet whole, or a declared length of 0. */
  predicate Incomplete(b: seq<byte>)
  {
    |b| < BGP_HEAD_LEN || BE16(b, BGP_MARKER_LEN) == 0 || |b| < BE16(b, BGP_MARKER_LEN)
  }

  /** A handler of one message that leaves the buffer alone. */
  ghost predicate KeepsBuffer(handle: (Session, byte) -> Step)
  {
    forall s: Session, msgType: byte :: handle(s, msgType).session.buffer == s.buffer
  }

  lemma HandlerKeepsBuffer(localAs: int, localIp: seq<byte>)
    ensures KeepsBuffer(Handler(localAs, localIp))
  {
    forall s: Session, msgType: byte
      ensures Handler(localAs, localIp)(s, msgType).session.buffer == s.buffer
    {
      assert Handler(localAs, localIp)(s, msgType) == OnPacketSpec(s, msgType, localAs, localIp);
    }
  }

  /** The loop drops whole messages only, keeps every byte after them, and
    * when nothing was thrown what it keeps is not yet a whole message. */
  lemma DrainConsumesFrames(s: Session, localAs: int, localIp: seq<byte>)
    ensures FramesThen(s.buffer, Drain(s, localAs, localIp).session.buffer)
    ensures var rest := Drain(s, localAs, localIp).session.buffer;
            |rest| <= |s.buffer| && rest == s.buffer[|s.buffer| - |rest|..]
    ensures var r := Drain(s, localAs, localIp);
            r.reply == Accepted ==> Incomplete(r.session.buffer)
  {
    HandlerKeepsBuffer(localAs, localIp);
    DrainWithFrames(Handler(localAs, localIp), s);
    FramesThenSuffix(s.buffer, Drain(s, localAs, localIp).session.buffer);
    DrainLeavesIncomplete(Handler(localAs, localIp), s);
  }

  lemma {:induction false} DrainWithFrames(handle: (Session, byte) -> Step, s: Session)
    requires KeepsBuffer(handle)
    ensures FramesThen(s.buffer, DrainWith(handle, s).session.buffer)
    decreases |s.buffer|
  {
    if Incomplete(s.buffer) {
      DrainStops(handle, s);
      NothingConsumed(s.buffer);
    } else {
      var len := BE16(s.buffer, BGP_MARKER_LEN);
      var t := handle(s, s.buffer[BGP_MARKER_LEN + 2]);
      if t.reply == Raised {
        DrainHandles(handle, s, len, t);
        NothingConsumed(s.buffer);
      } else {
        var s' := t.session.(buffer := s.buffer[len..]);
        DrainWithFrames(handle, s');
        DrainFramesStep(handle, s, len, t, s');
      }
    }
  }

  /** The step of DrainWithFrames past one whole message. */
  lemma DrainFramesStep(handle: (Session, byte) -> Step, s: Session, len: int, t: Step, s': Session)
    requires KeepsBuffer(handle) && !Incomplete(s.buffer)
    requires len == BE16(s.buffer, BGP_MARKER_LEN) && t == handle(s, s.buffer[BGP_MARKER_LEN + 2])
    requires t.reply != Raised && s' == t.session.(buffer := s.buffer[len..])
    requires FramesThen(s'.buffer, DrainWith(handle, s').session.buffer)
    ensures FramesThen(s.buffer, DrainWith(handle, s).session.buffer)
  {
    var rest := DrainWith(handle, s').session.buffer;
    DrainHandles(handle, s, len, t);
    assert DrainWith(handle, s).session.buffer == rest;
    FramesCons(s.buffer, len, rest);
  }

  lemma {:induction false} DrainLeavesIncomplete(handle: (Session, byte) -> Step, s: Session)
    requires KeepsBuffer(handle)
    ensures DrainWith(handle, s).reply == Accepted ==> Incomplete(DrainWith(handle, s).session.buffer)
    decreases |s.buffer|
  {
    if Incomplete(s.buffer) {
      DrainStops(handle, s);
    } else {
      var len := BE16(s.buffer, BGP_MARKER_LEN);
      var t := handle(s, s.buffer[BGP_MARKER_LEN + 2]);
      DrainHandles(handle, s, len, t);
      if t.reply != Raised {
        DrainLeavesIncomplete(handle, t.session.(buffer := s.buffer[len..]));
      }
    }
  }

  /** Nothing whole at the head of the buffer: the loop stops. */
  lemma DrainStops(handle: (Session, byte) -> Step, s: Session)
    requires Incomplete(s.buffer)
    ensures DrainWith(handle, s) == Step(s, Accepted)
  {
  }

  /** A whole message at the head of the buffer: handled, then dropped. */
  lemma DrainHandles(handle: (Session, byte) -> Step, s: Session, len: int, t: Step)
    requires KeepsBuffer(handle) && !Incomplete(s.buffer)
    requires len == BE16(s.buffer, BGP_MARKER_LEN) && t == handle(s, s.buffer[BGP_MARKER_LEN + 2])
    ensures t.reply == Raised ==> DrainWith(handle, s) == t && t.session.buffer == s.buffer
    ensures t.reply != Raised ==> DrainWith(handle, s) == DrainWith(handle, t.session.(buffer := s.buffer[len..]))
  {
  }

  lemma NothingConsumed(b: seq<byte>)
    ensures FramesThen(b, b)
  {
  }

  /** One whole message in front of whole messages. */
  lemma FramesCons(b: seq<byte>, len: nat, rest: seq<byte>)
    requires |b| >= BGP_HEAD_LEN && len == BE16(b, BGP_MARKER_LEN) && 0 < len <= |b|
    requires FramesThen(b[len..], rest)
    ensures FramesThen(b, rest)
  {
  }

  /** A whole message at the head of the buffer is handled, then dropped. */
  lemma DrainFront(handle: (Session, byte) -> Step, s: Session, m: seq<byte>, rest: seq<byte>)
    requires s.buffer == m + rest && |m| >= BGP_HEAD_LEN && BE16(m, BGP_MARKER_LEN) == |m|
    requires handle(s, m[BGP_MARKER_LEN + 2]).reply != Raised
    ensures DrainWith(handle, s) == DrainWith(handle, handle(s, m[BGP_MARKER_LEN + 2]).session.(buffer := rest))
  {
    var b := s.buffer;
    assert b[BGP_MARKER_LEN] == m[BGP_MARKER_LEN] && b[BGP_MARKER_LEN + 1] == m[BGP_MARKER_LEN + 1];
    assert b[BGP_MARKER_LEN + 2] == m[BGP_MARKER_LEN + 2];
    assert b[|m|..] == rest;
  }

  /** A whole OPEN at the head of the buffer: a KEEPALIVE written, then
    * OpenConfirm, and the loop goes on with the rest. */
  lemma OpenStep(s: Session, m: seq<byte>, rest: seq<byte>, localAs: int, localIp: seq<byte>)
    requires s.open && s.buffer == m + rest && Framed(m, OPEN)
    ensures Drain(s, localAs, localIp) ==
            Drain(s.(state := OpenConfirm, written := s.written + [BuildKeepAliveMsg()], buffer := rest), localAs, localIp)
  {
    var h := Handler(localAs, localIp);
    assert h(s, OPEN) == OnPacketSpec(s, OPEN, localAs, localIp);
    DrainFront(h, s, m, rest);
  }

  /** A whole KEEPALIVE before Established, with no stored request: a
    * KEEPALIVE written, then Established, and the loop goes on. */
  lemma KeepAliveStep(s: Session, m: seq<byte>, rest: seq<byte>, localAs: int, localIp: seq<byte>)
    requires s.open && s.stored.None? && s.state != Established
    requires s.buffer == m + rest && Framed(m, KEEPALIVE)
    ensures Drain(s, localAs, localIp) ==
            Drain(s.(state := Established, written := s.written + [BuildKeepAliveMsg()], buffer := rest), localAs, localIp)
  {
    var h := Handler(localAs, localIp);
    assert h(s, KEEPALIVE) == OnPacketSpec(s, KEEPALIVE, localAs, localIp);
    DrainFront(h, s, m, rest);
  }

  /** The OPEN exchange: after the connection writes its OPEN, a received
    * OPEN and then a KEEPALIVE, in one chunk, bring the session to
    * Established with two KEEPALIVEs written after the OPEN. */
  lemma Handshake(s: Session, openMsg: seq<byte>, peerOpen: seq<byte>, localAs: int, localIp: seq<byte>)
    requires s.stored.None? && s.buffer == []
    requires Framed(peerOpen, OPEN)
    ensures var r := HandleSpec(ConnectedSpec(s, openMsg), peerOpen + BuildKeepAliveMsg(), localAs, localIp);
            r.reply == Accepted && r.session.state == Established && r.session.buffer == [] &&
            r.session.written == s.written + [openMsg, BuildKeepAliveMsg(), BuildKeepAliveMsg()]
  {
    var k := BuildKeepAliveMsg();
    var c := ConnectedSpec(s, openMsg);
    assert c.buffer + (peerOpen + k) == peerOpen + k;
    OpenThenKeepAlive(c.(buffer := peerOpen + k), peerOpen, localAs, localIp);
    assert c.written + [k, k] == s.written + [openMsg, k, k];
  }

  /** An OPEN and then a KEEPALIVE in the buffer, before Established:
    * Established, two KEEPALIVEs written, and the buffer empty. */
  lemma OpenThenKeepAlive(s: Session, peerOpen: seq<byte>, localAs: int, localIp: seq<byte>)
    requires s.open && s.stored.None? && s.state != Established
    requires Framed(peerOpen, OPEN) && s.buffer == peerOpen + BuildKeepAliveMsg()
    ensures Drain(s, localAs, localIp) ==
            Step(s.(state := Established, written := s.written + [BuildKeepAliveMsg(), BuildKeepAliveMsg()], buffer := []),
                 Accepted)
  {
    var k := BuildKeepAliveMsg();
    OpenStep(s, peerOpen, k, localAs, localIp);
    LastKeepAlive(s.(state := OpenConfirm, written := s.written + [k], buffer := k), localAs, localIp);
    assert s.written + [k] + [k] == s.written + [k, k];
  }

  /** A buffer holding just a KEEPALIVE, before Established: Established,
    * one KEEPALIVE written, and the buffer empty. */
  lemma LastKeepAlive(s: Session, localAs: int, localIp: seq<byte>)
    requires s.open && s.stored.None? && s.state != Established && s.buffer == BuildKeepAliveMsg()
    ensures Drain(s, localAs, localIp) ==
            Step(s.(state := Established, written := s.written + [BuildKeepAliveMsg()], buffer := []), Accepted)
  {
    var k := BuildKeepAliveMsg();
    assert s.buffer == k + [];
    KeepAliveParses();
    KeepAliveStep(s, k, [], localAs, localIp);
    DrainStops(Handler(localAs, localIp), s.(state := Established, written := s.written + [k], buffer := []));
  }

  // ---------------------------------------------------------------------
  // Findings, as written
  // ---------------------------------------------------------------------

  /** One turn of handleBgpPacket's loop as written: the buffer after it,
    * or None when the loop stops. */
  function DrainStepAsWritten(b: seq<byte>): (r: Option<seq<byte>>)
    ensures r.Some? ==> |b| >= BGP_HEAD_LEN && BE16(b, BGP_MARKER_LEN) <= |b| && r.value == b[BE16(b, BGP_MARKER_LEN)..]
  {
    match DeclaredLength(b)
    case None => None
    case Some(len) => if |b| < len then None else Some(b[len..])
  }

  /** A KEEPALIVE header declaring length 0 is handled and then dropped as
    * zero octets, so the loop answers it again and again forever. */
  lemma ZeroLengthStalls()
    ensures var b := MARKER + [0, 0, KEEPALIVE];
            DrainStepAsWritten(b) == Some(b) && b[BGP_MARKER_LEN + 2] == KEEPALIVE
  {
    var b := MARKER + [0, 0, KEEPALIVE];
    assert BE16(b, BGP_MARKER_LEN) == 0;
    assert b[0..] == b;
  }

  /** One turn of sendRoute's loop as written: the next route index, or
    * None when the message failed and the loop breaks. */
  function SendStepAsWritten(routes: seq<NlriRoute>, i: nat, customAttr: seq<byte>,
                             localAs: int, localIp: seq<byte>): (r: Option<nat>)
    ensures r.Some? ==> r.value >= i
  {
    match UpdateMsgIpv4(routes, i, customAttr, localAs, localIp)
    case Failed(_) => None
    case Built(next, _) => Some(next)
  }

  /** With 4050 octets of custom attributes the first prefix never fits,
    * yet the message is built: the loop writes it and stays at index 0
    * forever. */
  lemma SendRouteStalls(localAs: int, localIp: seq<byte>)
    requires |localIp| == 4
    ensures var routes := [NlriRoute([10, 0, 0, 0], 24)];
            SendStepAsWritten(routes, 0, seq(4050, _ => 0), localAs, localIp) == Some(0)
  {
    var routes := [NlriRoute([10, 0, 0, 0], 24)];
    var pathAttr := StandardAttributes(localAs, localIp) + seq(4050, _ => 0);
    assert |StandardAttributes(localAs, localIp)| == 27;
    assert |pathAttr| == 4077;
    assert PackedEnd(routes, 0, BGP_HEAD_LEN + 2 + 2 + |pathAttr|) == 0;
    assert NlriOf(routes, 0, 0) == [];
  }

  /** A header declaring a length shorter than itself is still handled by
    * its type: a KEEPALIVE of declared length 5 before Established brings
    * the session to Established, and only its 5 octets are dropped. */
  lemma ShortLengthHandled(s: Session, localAs: int, localIp: seq<byte>)
    requires s.open && s.stored.None? && s.state != Established
    requires s.buffer == MARKER + [0, 5, KEEPALIVE]
    ensures Drain(s, localAs, localIp) ==
            Step(s.(state := Established, written := s.written + [BuildKeepAliveMsg()], buffer := s.buffer[5..]),
                 Accepted)
  {
    var h := Handler(localAs, localIp);
    assert BE16(s.buffer, BGP_MARKER_LEN) == 5;
    assert h(s, KEEPALIVE) == OnPacketSpec(s, KEEPALIVE, localAs, localIp);
    var t := h(s, KEEPALIVE);
    HandlerKeepsBuffer(localAs, localIp);
    DrainHandles(h, s, 5, t);
    DrainStops(h, t.session.(buffer := s.buffer[5..]));
  }

  /** Received messages and requests keep a stored request valid. */
  lemma OnPacketKeepsValid(s: Session, msgType: byte, localAs: int, localIp: seq<byte>)
    requires ValidSession(s)
    ensures ValidSession(OnPacketSpec(s, msgType, localAs, localIp).session)
  {
  }

  lemma DrainKeepsValid(s: Session, localAs: int, localIp: seq<byte>)
    requires ValidSession(s)
    ensures ValidSession(Drain(s, localAs, localIp).session)
  {
    var h := Handler(localAs, localIp);
    forall s0: Session, msgType: byte | ValidSession(s0)
      ensures ValidSession(h(s0, msgType).session)
    {
      OnPacketKeepsValid(s0, msgType, localAs, localIp);
    }
    DrainWithKeepsValid(h, s);
  }

  lemma {:induction false} DrainWithKeepsValid(handle: (Session, byte) -> Step, s: Session)
    requires forall s0: Session, msgType: byte :: ValidSession(s0) ==> ValidSession(handle(s0, msgType).session)
    requires ValidSession(s)
    ensures ValidSession(DrainWith(handle, s).session)
    decreases |s.buffer|
  {
    if !Incomplete(s.buffer) {
      var t := handle(s, s.buffer[BGP_MARKER_LEN + 2]);
      if t.reply != Raised {
        DrainWithKeepsValid(handle, t.session.(buffer := s.buffer[BE16(s.buffer, BGP_MARKER_LEN)..]));
      }
    }
  }

  // ---------------------------------------------------------------------
  // The worker
  // ---------------------------------------------------------------------

  /** BgpSimulatorWorker: the fields the handlers update, with the local AS
    * and address of the started session. */
  class Worker {
    var bgpState: BgpState
    var packetBuffer: seq<byte>
    var sendRouteV4: Option<RouteConfig>
    var socketOpen: bool
    var written: seq<seq<byte>>
    const localAs: int
    const localIp: Ipv4Octets

    function Snapshot(): Session
      reads this
    {
      Session(bgpState, packetBuffer, sendRouteV4, socketOpen, written)
    }

    constructor(localAs: int, localIp: Ipv4Octets)
      ensures Snapshot() == Session(Idle, [], None, false, [])
      ensures this.localAs == localAs && this.localIp == localIp
    {
      this.localAs := localAs;
      this.localIp := localIp;
      bgpState := Idle;
      packetBuffer := [];
      sendRouteV4 := None;
      socketOpen := false;
      written := [];
    }

    /** A peer connected: its socket is kept and the OPEN is written. */
    method Connected(openMsg: seq<byte>)
      modifies this
      ensures Snapshot() == ConnectedSpec(old(Snapshot()), openMsg)
    {
      socketOpen := true;
      bgpState := Connect;
      written := written + [openMsg];
      bgpState := OpenSent;
    }

    /** The socket's end, close or error event. */
    method SocketClosed()
      modifies this
      ensures Snapshot() == old(Snapshot()).(open := false)
    {
      socketOpen := false;
    }

    /** stopBgp: the socket destroyed and the state back to Idle. */
    method StopBgp()
      modifies this
      ensures Snapshot() == old(Snapshot()).(open := false, state := Idle)
    {
      socketOpen := false;
      bgpState := Idle;
    }

    method SendKeepAliveMsg() returns (reply: Reply)
      modifies this
      ensures Step(Snapshot(), reply) == WriteAll(old(Snapshot()), [BuildKeepAliveMsg()])
    {
      if !socketOpen {
        return Raised;
      }
      written := written + [BuildKeepAliveMsg()];
      reply := Accepted;
    }

    /** sendRoute for an IPv4 request. */
    method SendRoute(config: RouteConfig) returns (reply: Reply)
      modifies this
      ensures Step(Snapshot(), reply) == SendRouteSpec(old(Snapshot()), config, localAs, localIp)
    {
      if bgpState != Established {
        return Rejected;
      }
      var generated := GenRouteIps(config.prefix, config.mask, config.count);
      if generated.Threw? {
        return Raised;
      }
      if |generated.value| == 0 {
        return Accepted;
      }
      var routes := AnnouncedRoutes(config).value;
      sendRouteV4 := Some(config);
      reply := WriteUpdates(routes, config.customAttr, UpdateBuilder(routes, config.customAttr, localAs, localIp));
    }

    /** sendRoute's loop: one UPDATE per turn, until a message fails or
      * announces nothing; build(k) is the UPDATE built from route k. */
    method WriteUpdates(routes: seq<NlriRoute>, customAttr: seq<byte>, ghost build: nat -> BuildResult)
      returns (reply: Reply)
      requires forall k: nat :: build(k) == UpdateMsgIpv4(routes, k, customAttr, localAs, localIp)
      modifies this
      ensures Step(Snapshot(), reply) == WriteAll(old(Snapshot()), Messages(build, |routes|, 0))
    {
      var routeIndex := 0;
      while routeIndex < |routes|
        invariant Snapshot() == old(Snapshot()).(written := written)
        invariant !socketOpen ==> routeIndex == 0 && written == old(written)
        invariant written + Messages(build, |routes|, routeIndex) == old(written) + Messages(build, |routes|, 0)
        decreases |routes| - routeIndex
      {
        var result := BuildUpdateMsgIpv4(routes, routeIndex, customAttr, localAs, localIp);
        MessagesStep(build, |routes|, routeIndex, result);
        if result.Failed? || result.index <= routeIndex {
          break;
        }
        if !socketOpen {
          return Raised;
        }
        assert (written + [result.buffer]) + Messages(build, |routes|, result.index)
            == written + ([result.buffer] + Messages(build, |routes|, result.index));
        written := written + [result.buffer];
        routeIndex := result.index;
      }
      reply := Accepted;
    }

    /** withdrawRoute for an IPv4 request. */
    method WithdrawRoute(config: RouteConfig) returns (reply: Reply)
      modifies this
      ensures Step(Snapshot(), reply) == WithdrawRouteSpec(old(Snapshot()), config)
    {
      if bgpState != Established {
        return Rejected;
      }
      var generated := GenRouteIps(config.prefix, config.mask, config.count);
      if generated.Threw? {
        return Raised;
      }
      if |generated.value| == 0 {
        return Accepted;
      }
      var routes := AnnouncedRoutes(config).value;
      sendRouteV4 := None;
      reply := WriteWithdraws(routes, WithdrawBuilder(routes));
    }

    /** withdrawRoute's loop: one withdrawing UPDATE per turn; build(k) is
      * the UPDATE built from route k. */
    method WriteWithdraws(routes: seq<NlriRoute>, ghost build: nat -> BuildResult) returns (reply: Reply)
      requires forall k: nat :: build(k) == WithdrawMsgIpv4(routes, k)
      modifies this
      ensures Step(Snapshot(), reply) == WriteAll(old(Snapshot()), Messages(build, |routes|, 0))
    {
      var routeIndex := 0;
      while routeIndex < |routes|
        invariant Snapshot() == old(Snapshot()).(written := written)
        invariant !socketOpen ==> routeIndex == 0 && written == old(written)
        invariant written + Messages(build, |routes|, routeIndex) == old(written) + Messages(build, |routes|, 0)
        decreases |routes| - routeIndex
      {
        var result := BuildWithdrawMsgIpv4(routes, routeIndex);
        WithdrawProgress(routes, routeIndex);
        MessagesStep(build, |routes|, routeIndex, result);
        if !socketOpen {
          return Raised;
        }
        assert (written + [result.buffer]) + Messages(build, |routes|, result.index)
            == written + ([result.buffer] + Messages(build, |routes|, result.index));
        written := written + [result.buffer];
        routeIndex := result.index;
      }
      reply := Accepted;
    }

    /** sendRoute(null, this.sendRouteV4) when a request is stored. */
    method ResendStored() returns (reply: Reply)
      modifies this
      ensures Step(Snapshot(), reply) == Resend(old(Snapshot()), localAs, localIp)
    {
      if sendRouteV4.None? {
        return Accepted;
      }
      reply := SendRoute(sendRouteV4.value);
      if reply != Raised {
        reply := Accepted;
      }
    }

    /** The dispatch on one received message's type. */
    method OnPacket(msgType: byte) returns (reply: Reply)
      modifies this
      ensures Step(Snapshot(), reply) == OnPacketSpec(old(Snapshot()), msgType, localAs, localIp)
    {
      if msgType == OPEN {
        reply := SendKeepAliveMsg();
        if reply == Raised {
          return;
        }
        bgpState := OpenConfirm;
      } else if msgType == KEEPALIVE {
        var established := bgpState == Established;
        reply := SendKeepAliveMsg();
        if reply == Raised || established {
          return;
        }
        bgpState := Established;
        reply := ResendStored();
      } else if msgType == NOTIFICATION {
        bgpState := Idle;
        socketOpen := false;
        reply := Accepted;
      } else if msgType == ROUTE_REFRESH {
        reply := ResendStored();
      } else {
        reply := Accepted;
      }
    }

    /** handleBgpPacket: append the received octets and handle every whole
      * message at the head of the buffer. */
    method HandleBgpPacket(data: seq<byte>) returns (reply: Reply)
      modifies this
      ensures Step(Snapshot(), reply) == HandleSpec(old(Snapshot()), data, localAs, localIp)
    {
      packetBuffer := packetBuffer + data;
      while |packetBuffer| >= BGP_HEAD_LEN
        invariant Drain(Snapshot(), localAs, localIp) == HandleSpec(old(Snapshot()), data, localAs, localIp)
        decreases |packetBuffer|
      {
        var header := ParseBgpHeader(packetBuffer).value;
        if header.length == 0 || |packetBuffer| < header.length {
          break;
        }
        reply := OnPacket(header.msgType);
        if reply == Raised {
          return;
        }
        packetBuffer := packetBuffer[header.length..];
      }
      reply := Accepted;
    }
  }
}
