/** The key life cycle of the TCP-AO helper (TCP Authentication Option,
  * RFC 5925): which keys are valid when, which one becomes the current send
  * key, the install before bind, and the make-before-break rotation tick.
  * The kernel's setsockopt and bind become calls on a Kernel object that
  * logs every request and answers with an arbitrary, fixed oracle. */
module TcpAo {
  import opened Base
  import opened TcpAoJson

  /** Largest key the kernel takes (TCP_AO_MAXKEYLEN of linux/tcp.h). */
  const TCP_AO_MAXKEYLEN: int := 80
  /** strncpy into the 64-byte alg_name copies at most 63 characters. */
  const ALG_NAME_COPY: int := 63
  /** Every install and single delete names the peer as a /32 prefix. */
  const PEER_PREFIX: int := 32
  const DEFAULT_ROTATION_INTERVAL: int := 60
  const MIN_ROTATION_INTERVAL: int := 10
  /** keys_json_str holds 4095 characters and the terminator. */
  const KEYS_JSON_CAP: int := 4095

  /** The socket requests the helper makes. sndid and rcvid are 8-bit
    * fields of struct tcp_ao_add and struct tcp_ao_del, so the keyId
    * assigned to them is reduced modulo 256 as C's conversion does. */
  datatype SockCall =
    | AddKey(peer: string, algName: string, key: string, sndid: int, rcvid: int,
             setCurrent: bool, prefix: int)
    | DelKey(peer: string, sndid: int, rcvid: int, prefix: int)
    | Bind(port: int)

  /** The kernel side of the listening socket: the log of every request,
    * and whether it accepts a request given the ones before it. */
  class Kernel {
    var log: seq<SockCall>
    const accepts: (SockCall, seq<SockCall>) -> bool

    constructor(accepts: (SockCall, seq<SockCall>) -> bool)
      ensures log == [] && this.accepts == accepts
    {
      log := [];
      this.accepts := accepts;
    }

    /** setsockopt or bind: true where the C call returns 0. */
    method Call(c: SockCall) returns (ok: bool)
      modifies this
      ensures log == old(log) + [c]
      ensures ok == accepts(c, old(log))
    {
      ok := accepts(c, log);
      log := log + [c];
    }
  }

  // ---------------------------------------------------------------------
  // Validity windows
  // ---------------------------------------------------------------------

  /** The check shared by is_key_valid_for_send and is_key_valid_for_recv:
    * a bound of 0 (or below) is absent, and both bounds are inclusive. */
  function InWindow(start: int, end: int, now: int): (r: bool)
    ensures r <==> (start <= 0 || start <= now) && (end <= 0 || now <= end)
    ensures start == 0 && end == 0 ==> r
  {
    if start == 0 && end == 0 then true
    else if start > 0 && now < start then false
    else if end > 0 && now > end then false
    else true
  }

  predicate ValidForSend(k: KeyConfig, now: int)
  {
    InWindow(k.sendStart, k.sendEnd, now)
  }

  predicate ValidForRecv(k: KeyConfig, now: int)
  {
    InWindow(k.acceptStart, k.acceptEnd, now)
  }

  /** A key worth installing: valid for sending or for accepting. */
  predicate Usable(k: KeyConfig, now: int)
  {
    ValidForSend(k, now) || ValidForRecv(k, now)
  }

  // ---------------------------------------------------------------------
  // Requests
  // ---------------------------------------------------------------------

  function Truncated(s: string, n: nat): (r: string)
    ensures |r| <= n && r <= s
    ensures |s| <= n ==> r == s
  {
    if |s| <= n then s else s[..n]
  }

  /** The tcp_ao_add request for key k, with set_current as given. */
  function AddCall(peer: string, k: KeyConfig, current: bool): SockCall
  {
    AddKey(peer, Truncated(k.algorithm, ALG_NAME_COPY), Truncated(k.password, TCP_AO_MAXKEYLEN),
           k.keyId % 256, k.keyId % 256, current, PEER_PREFIX)
  }

  /** The tcp_ao_del request for key k with the given prefix length. */
  function DelCall(peer: string, k: KeyConfig, prefix: int): SockCall
  {
    DelKey(peer, k.keyId % 256, k.keyId % 256, prefix)
  }

  /** What a run of requests leaves behind: the log, and whether every
    * request was accepted. */
  datatype Outcome = Outcome(log: seq<SockCall>, ok: bool)

  /** Issuing the requests in order and stopping at the first rejected one
    * (which is still in the log). RunSpec characterizes it. */
  function Run(accepts: (SockCall, seq<SockCall>) -> bool, log: seq<SockCall>, calls: seq<SockCall>): (r: Outcome)
    ensures r.ok ==> r.log == log + calls
    ensures |log| < |r.log| <= |log| + |calls| || (r.log == log && calls == [])
    decreases |calls|
  {
    if calls == [] then Outcome(log, true)
    else if !accepts(calls[0], log) then Outcome(log + [calls[0]], false)
    else
      var r := Run(accepts, log + [calls[0]], calls[1..]);
      assert r.ok ==> log + [calls[0]] + calls[1..] == log + calls;
      r
  }

  /** The run either issues every request, each accepted, or stops right
    * after the first request the kernel rejects. */
  lemma {:induction false} RunSpec(accepts: (SockCall, seq<SockCall>) -> bool, log: seq<SockCall>, calls: seq<SockCall>)
    ensures var r := Run(accepts, log, calls);
      r.ok <==> forall j :: 0 <= j < |calls| ==> accepts(calls[j], log + calls[..j])
    ensures var r := Run(accepts, log, calls);
      !r.ok ==> exists j :: 0 <= j < |calls| && r.log == log + calls[..j + 1] && !accepts(calls[j], log + calls[..j])
    decreases |calls|
  {
    if calls != [] {
      assert log + calls[..0] == log;
      if accepts(calls[0], log) {
        var log' := log + [calls[0]];
        var rest := calls[1..];
        RunSpec(accepts, log', rest);
        assert forall j :: 0 <= j <= |rest| ==> log' + rest[..j] == log + calls[..j + 1] by {
          forall j | 0 <= j <= |rest| ensures log' + rest[..j] == log + calls[..j + 1] {
            assert calls[..j + 1] == [calls[0]] + rest[..j];
          }
        }
        if Run(accepts, log, calls).ok {
          forall j | 0 <= j < |calls| ensures accepts(calls[j], log + calls[..j]) {
            if j > 0 {
              assert calls[j] == rest[j - 1];
              assert log' + rest[..j - 1] == log + calls[..j];
            }
          }
        } else {
          var j :| 0 <= j < |rest| && Run(accepts, log', rest).log == log' + rest[..j + 1]
                   && !accepts(rest[j], log' + rest[..j]);
          assert rest[j] == calls[j + 1];
          assert log' + rest[..j] == log + calls[..j + 1];
          assert log' + rest[..j + 1] == log + calls[..j + 2];
        }
      } else {
        assert calls[..1] == [calls[0]];
      }
    }
  }

  // ---------------------------------------------------------------------
  // configure_tcp_ao
  // ---------------------------------------------------------------------

  /** The index of the send-valid key with the largest keyId (the first of
    * equal ones), or -1 when no key is valid for sending. */
  function NewestSendKey(ks: seq<KeyConfig>, now: int): (r: int)
    ensures -1 <= r < |ks|
    ensures r >= 0 ==> ValidForSend(ks[r], now)
    decreases |ks|
  {
    if ks == [] then -1
    else
      var n := NewestSendKey(ks[..|ks| - 1], now);
      var i := |ks| - 1;
      if ValidForSend(ks[i], now) && (n == -1 || ks[i].keyId > ks[n].keyId) then i else n
  }

  /** The newest send key is the send-valid key with the largest keyId,
    * first among equals, and there is one exactly when some key is valid
    * for sending. */
  lemma {:induction false} NewestSendKeySpec(ks: seq<KeyConfig>, now: int)
    ensures var r := NewestSendKey(ks, now);
      r == -1 <==> forall j :: 0 <= j < |ks| ==> !ValidForSend(ks[j], now)
    ensures var r := NewestSendKey(ks, now);
      r >= 0 ==> forall j :: 0 <= j < |ks| && ValidForSend(ks[j], now) ==> ks[j].keyId <= ks[r].keyId
    ensures var r := NewestSendKey(ks, now);
      r >= 0 ==> forall j :: 0 <= j < r && ValidForSend(ks[j], now) ==> ks[j].keyId < ks[r].keyId
    decreases |ks|
  {
    if ks != [] {
      var init := ks[..|ks| - 1];
      NewestSendKeySpec(init, now);
      assert forall j :: 0 <= j < |init| ==> init[j] == ks[j];
    }
  }

  /** The installs configure_tcp_ao makes for keys lo.. of ks: one per
    * usable key, in order, set_current only on the key at `newest`. */
  function Installs(peer: string, ks: seq<KeyConfig>, newest: int, now: int, lo: nat): seq<SockCall>
    requires lo <= |ks|
    decreases |ks| - lo
  {
    if lo == |ks| then []
    else (if Usable(ks[lo], now) then [AddCall(peer, ks[lo], lo == newest)] else [])
         + Installs(peer, ks, newest, now, lo + 1)
  }

  function InstallPlan(peer: string, ks: seq<KeyConfig>, now: int): seq<SockCall>
  {
    Installs(peer, ks, NewestSendKey(ks, now), now, 0)
  }

  /** The first loop of configure_tcp_ao: the index of the send-valid key
    * with the largest id, the earliest on ties, or -1. */
  method FindNewestSendKey(keyConfigs: array<KeyConfig>, numKeys: int, now: int) returns (newest: int)
    requires 0 <= numKeys <= keyConfigs.Length
    ensures newest == NewestSendKey(keyConfigs[..numKeys], now)
  {
    ghost var ks := keyConfigs[..numKeys];
    newest := -1;
    for i := 0 to numKeys
      invariant newest == NewestSendKey(ks[..i], now)
    {
      assert ks[..i + 1][..i] == ks[..i];
      if ValidForSend(keyConfigs[i], now) && (newest == -1 || keyConfigs[i].keyId > keyConfigs[newest].keyId) {
        newest := i;
      }
    }
    assert ks[..numKeys] == ks;
  }

  /** configure_tcp_ao: installs every key usable at `now` in order, with
    * only the newest send key current; -1 on the first rejected install or
    * when no key was installed, else 0. */
  method ConfigureTcpAo(kernel: Kernel, peer: string, keyConfigs: array<KeyConfig>, numKeys: int, now: int)
    returns (result: int)
    requires 0 <= numKeys <= keyConfigs.Length
    modifies kernel
    ensures var plan := InstallPlan(peer, keyConfigs[..numKeys], now);
      var out := Run(kernel.accepts, old(kernel.log), plan);
      kernel.log == out.log && result == (if out.ok && plan != [] then 0 else -1)
  {
    ghost var ks := keyConfigs[..numKeys];
    var newest := FindNewestSendKey(keyConfigs, numKeys, now);
    ghost var plan := Installs(peer, ks, newest, now, 0);
    ghost var log0 := kernel.log;
    var configuredCount := 0;
    for i := 0 to numKeys
      invariant Run(kernel.accepts, log0, plan) == Run(kernel.accepts, kernel.log, Installs(peer, ks, newest, now, i))
      invariant |kernel.log| == |log0| + configuredCount
    {
      assert ks[i] == keyConfigs[i];
      if !Usable(keyConfigs[i], now) {
        assert Installs(peer, ks, newest, now, i) == [] + Installs(peer, ks, newest, now, i + 1);
        assert [] + Installs(peer, ks, newest, now, i + 1) == Installs(peer, ks, newest, now, i + 1);
        continue;
      }
      ghost var rest := Installs(peer, ks, newest, now, i + 1);
      var call := AddCall(peer, keyConfigs[i], i == newest);
      assert Installs(peer, ks, newest, now, i) == [call] + rest;
      assert ([call] + rest)[0] == call && ([call] + rest)[1..] == rest;
      var ok := kernel.Call(call);
      if !ok {
        return -1;
      }
      configuredCount := configuredCount + 1;
    }
    if configuredCount == 0 {
      return -1;
    }
    return 0;
  }

  /** The installs are the usable keys, in order: each usable key is
    * installed, and every install is one of a usable key. */
  lemma {:induction false} InstallsAreUsable(peer: string, ks: seq<KeyConfig>, newest: int, now: int, lo: nat)
    requires lo <= |ks|
    ensures forall i :: lo <= i < |ks| && Usable(ks[i], now) ==>
      AddCall(peer, ks[i], i == newest) in Installs(peer, ks, newest, now, lo)
    ensures forall c :: c in Installs(peer, ks, newest, now, lo) ==>
      exists i :: lo <= i < |ks| && Usable(ks[i], now) && c == AddCall(peer, ks[i], i == newest)
    decreases |ks| - lo
  {
    if lo < |ks| {
      InstallsAreUsable(peer, ks, newest, now, lo + 1);
    }
  }

  /** How many installs carry set_current. */
  function CurrentCount(calls: seq<SockCall>): nat
  {
    if calls == [] then 0
    else (if calls[0].AddKey? && calls[0].setCurrent then 1 else 0) + CurrentCount(calls[1..])
  }

  lemma {:induction false} InstallsCurrent(peer: string, ks: seq<KeyConfig>, newest: int, now: int, lo: nat)
    requires lo <= |ks| && (0 <= newest < |ks| ==> Usable(ks[newest], now))
    ensures CurrentCount(Installs(peer, ks, newest, now, lo)) == if lo <= newest < |ks| then 1 else 0
    ensures forall c :: c in Installs(peer, ks, newest, now, lo) && c.AddKey? && c.setCurrent ==>
      0 <= newest < |ks| && c == AddCall(peer, ks[newest], true)
    decreases |ks| - lo
  {
    if lo < |ks| {
      InstallsCurrent(peer, ks, newest, now, lo + 1);
      var head := if Usable(ks[lo], now) then [AddCall(peer, ks[lo], lo == newest)] else [];
      var rest := Installs(peer, ks, newest, now, lo + 1);
      CurrentCountAppend(head, rest);
    }
  }

  lemma {:induction false} CurrentCountAppend(a: seq<SockCall>, b: seq<SockCall>)
    ensures CurrentCount(a + b) == CurrentCount(a) + CurrentCount(b)
  {
    if a == [] {
      assert a + b == b;
    } else {
      assert (a + b)[0] == a[0];
      assert (a + b)[1..] == a[1..] + b;
      CurrentCountAppend(a[1..], b);
    }
  }

  /** Exactly one install is current when a key is valid for sending: the
    * one for the send-valid key with the largest keyId. With none, no
    * install is current. */
  lemma ExactlyOneCurrent(peer: string, ks: seq<KeyConfig>, now: int)
    ensures var newest := NewestSendKey(ks, now);
      CurrentCount(InstallPlan(peer, ks, now)) == (if newest >= 0 then 1 else 0)
    ensures var newest := NewestSendKey(ks, now);
      forall c :: c in InstallPlan(peer, ks, now) && c.AddKey? && c.setCurrent ==>
        0 <= newest < |ks| && c == AddCall(peer, ks[newest], true)
  {
    InstallsCurrent(peer, ks, NewestSendKey(ks, now), now, 0);
  }

  // ---------------------------------------------------------------------
  // Single keys
  // ---------------------------------------------------------------------

  /** add_single_key: skips a key unusable at `now`; otherwise installs it
    * as current. -1 only when the kernel rejects the install. */
  method AddSingleKey(kernel: Kernel, peer: string, key: KeyConfig, now: int) returns (result: int)
    modifies kernel
    ensures !Usable(key, now) ==> kernel.log == old(kernel.log) && result == 0
    ensures Usable(key, now) ==>
      (kernel.log == old(kernel.log) + [AddCall(peer, key, true)] &&
       result == (if kernel.accepts(AddCall(peer, key, true), old(kernel.log)) then 0 else -1))
  {
    var canSend := ValidForSend(key, now);
    var canRecv := ValidForRecv(key, now);
    if !canSend && !canRecv {
      return 0;
    }
    var ok := kernel.Call(AddCall(peer, key, true));
    if !ok {
      return -1;
    }
    return 0;
  }

  /** delete_single_key: removes the key's /32 entry; -1 on rejection. */
  method DeleteSingleKey(kernel: Kernel, peer: string, key: KeyConfig) returns (result: int)
    modifies kernel
    ensures kernel.log == old(kernel.log) + [DelCall(peer, key, PEER_PREFIX)]
    ensures result == (if kernel.accepts(DelCall(peer, key, PEER_PREFIX), old(kernel.log)) then 0 else -1)
  {
    var ok := kernel.Call(DelCall(peer, key, PEER_PREFIX));
    if !ok {
      return -1;
    }
    return 0;
  }

  // ---------------------------------------------------------------------
  // Rotation
  // ---------------------------------------------------------------------

  predicate BecameValid(k: KeyConfig, now: int, interval: int)
  {
    !Usable(k, now - interval) && Usable(k, now)
  }

  predicate BecameInvalid(k: KeyConfig, now: int, interval: int)
  {
    Usable(k, now - interval) && !Usable(k, now)
  }

  /** A key the tick flags to add, seen by add_single_key, which reads the
    * clock again: `addClock(i)` is that reading for key i, and a key no
    * longer usable then is skipped. */
  predicate AddedAt(k: KeyConfig, now: int, interval: int, addNow: int)
  {
    BecameValid(k, now, interval) && Usable(k, addNow)
  }

  /** The adds of a rotation tick over ks[..n], in key order. */
  function RotationAdds(peer: string, ks: seq<KeyConfig>, now: int, interval: int, addClock: nat -> int, n: nat): seq<SockCall>
    requires n <= |ks|
  {
    if n == 0 then []
    else RotationAdds(peer, ks, now, interval, addClock, n - 1)
         + (if AddedAt(ks[n - 1], now, interval, addClock(n - 1)) then [AddCall(peer, ks[n - 1], true)] else [])
  }

  /** The removes of a rotation tick over ks[..n], in key order. */
  function RotationRemoves(peer: string, ks: seq<KeyConfig>, now: int, interval: int, n: nat): seq<SockCall>
    requires n <= |ks|
  {
    if n == 0 then []
    else RotationRemoves(peer, ks, now, interval, n - 1)
         + (if BecameInvalid(ks[n - 1], now, interval) then [DelCall(peer, ks[n - 1], PEER_PREFIX)] else [])
  }

  /** Everything a due rotation tick asks of the kernel: all adds, then all
    * removes. */
  function RotationPlan(peer: string, ks: seq<KeyConfig>, now: int, interval: int, addClock: nat -> int): seq<SockCall>
  {
    RotationAdds(peer, ks, now, interval, addClock, |ks|) + RotationRemoves(peer, ks, now, interval, |ks|)
  }

  lemma {:induction false} RotationAddsSpec(peer: string, ks: seq<KeyConfig>, now: int, interval: int,
                                            addClock: nat -> int, n: nat)
    requires n <= |ks|
    ensures forall c :: c in RotationAdds(peer, ks, now, interval, addClock, n) ==> c.AddKey?
    ensures forall i :: 0 <= i < n && AddedAt(ks[i], now, interval, addClock(i)) ==>
      AddCall(peer, ks[i], true) in RotationAdds(peer, ks, now, interval, addClock, n)
    ensures forall c :: c in RotationAdds(peer, ks, now, interval, addClock, n) ==>
      exists i :: 0 <= i < n && AddedAt(ks[i], now, interval, addClock(i)) && c == AddCall(peer, ks[i], true)
    ensures RotationAdds(peer, ks, now, interval, addClock, n) == [] <==>
      forall i :: 0 <= i < n ==> !AddedAt(ks[i], now, interval, addClock(i))
  {
    if n > 0 {
      RotationAddsSpec(peer, ks, now, interval, addClock, n - 1);
      var prev := RotationAdds(peer, ks, now, interval, addClock, n - 1);
      var last := if AddedAt(ks[n - 1], now, interval, addClock(n - 1)) then [AddCall(peer, ks[n - 1], true)] else [];
      assert RotationAdds(peer, ks, now, interval, addClock, n) == prev + last;
      forall c | c in prev + last
        ensures exists i :: 0 <= i < n && AddedAt(ks[i], now, interval, addClock(i)) && c == AddCall(peer, ks[i], true)
      {
        if c !in prev {
          assert AddedAt(ks[n - 1], now, interval, addClock(n - 1)) && c == AddCall(peer, ks[n - 1], true);
        }
      }
    }
  }

  /** A key that became valid at the tick but whose windows have closed by
    * the time add_single_key reads the clock is not installed. */
  lemma ExpiredBeforeAddSkipped(peer: string, ks: seq<KeyConfig>, now: int, interval: int, addClock: nat -> int, i: nat)
    requires i < |ks| && BecameValid(ks[i], now, interval) && !Usable(ks[i], addClock(i))
    requires forall j :: 0 <= j < |ks| && j != i ==> AddCall(peer, ks[j], true) != AddCall(peer, ks[i], true)
    ensures AddCall(peer, ks[i], true) !in RotationAdds(peer, ks, now, interval, addClock, |ks|)
  {
    RotationAddsSpec(peer, ks, now, interval, addClock, |ks|);
  }

  lemma {:induction false} RotationRemovesSpec(peer: string, ks: seq<KeyConfig>, now: int, interval: int, n: nat)
    requires n <= |ks|
    ensures forall c :: c in RotationRemoves(peer, ks, now, interval, n) ==> c.DelKey?
    ensures forall i :: 0 <= i < n && BecameInvalid(ks[i], now, interval) ==>
      DelCall(peer, ks[i], PEER_PREFIX) in RotationRemoves(peer, ks, now, interval, n)
    ensures forall c :: c in RotationRemoves(peer, ks, now, interval, n) ==>
      exists i :: 0 <= i < n && BecameInvalid(ks[i], now, interval) && c == DelCall(peer, ks[i], PEER_PREFIX)
    ensures RotationRemoves(peer, ks, now, interval, n) == [] <==>
      forall i :: 0 <= i < n ==> !BecameInvalid(ks[i], now, interval)
  {
    if n > 0 {
      RotationRemovesSpec(peer, ks, now, interval, n - 1);
      var prev := RotationRemoves(peer, ks, now, interval, n - 1);
      var last := if BecameInvalid(ks[n - 1], now, interval) then [DelCall(peer, ks[n - 1], PEER_PREFIX)] else [];
      assert RotationRemoves(peer, ks, now, interval, n) == prev + last;
      forall c | c in prev + last
        ensures exists i :: 0 <= i < n && BecameInvalid(ks[i], now, interval) && c == DelCall(peer, ks[i], PEER_PREFIX)
      {
        if c !in prev {
          assert BecameInvalid(ks[n - 1], now, interval) && c == DelCall(peer, ks[n - 1], PEER_PREFIX);
        }
      }
    }
  }

  /** Make-before-break: within a tick every add comes before every remove. */
  lemma MakeBeforeBreak(peer: string, ks: seq<KeyConfig>, now: int, interval: int, addClock: nat -> int)
    ensures var plan := RotationPlan(peer, ks, now, interval, addClock);
      forall a, b :: 0 <= a < |plan| && 0 <= b < |plan| && plan[a].DelKey? && plan[b].AddKey? ==> b < a
  {
    var adds := RotationAdds(peer, ks, now, interval, addClock, |ks|);
    var removes := RotationRemoves(peer, ks, now, interval, |ks|);
    RotationAddsSpec(peer, ks, now, interval, addClock, |ks|);
    RotationRemovesSpec(peer, ks, now, interval, |ks|);
    var plan := adds + removes;
    assert forall a :: 0 <= a < |adds| ==> plan[a].AddKey? by {
      forall a | 0 <= a < |adds| ensures plan[a].AddKey? {
        assert plan[a] == adds[a] && adds[a] in adds;
      }
    }
    assert forall b :: |adds| <= b < |plan| ==> plan[b].DelKey? by {
      forall b | |adds| <= b < |plan| ensures plan[b].DelKey? {
        assert plan[b] == removes[b - |adds|] && removes[b - |adds|] in removes;
      }
    }
  }

  /** A tick makes kernel requests exactly when some key became invalid
    * between `now - interval` and `now`, or became valid and was still
    * usable when add_single_key read the clock. */
  lemma RotationNoChange(peer: string, ks: seq<KeyConfig>, now: int, interval: int, addClock: nat -> int)
    ensures RotationPlan(peer, ks, now, interval, addClock) == [] <==>
      forall i :: 0 <= i < |ks| ==> !AddedAt(ks[i], now, interval, addClock(i)) && !BecameInvalid(ks[i], now, interval)
  {
    RotationAddsSpec(peer, ks, now, interval, addClock, |ks|);
    RotationRemovesSpec(peer, ks, now, interval, |ks|);
  }

  /** delete_all_keys' requests: one delete per key, in order, each with
    * prefix length 0. */
  function DeleteAllPlan(peer: string, ks: seq<KeyConfig>): (r: seq<SockCall>)
    ensures |r| == |ks|
    ensures forall i :: 0 <= i < |ks| ==> r[i] == DelCall(peer, ks[i], 0)
  {
    if ks == [] then [] else DeleteAllPlan(peer, ks[..|ks| - 1]) + [DelCall(peer, ks[|ks| - 1], 0)]
  }

  /** main's rotation interval: 60 without an argument, else atoi of the
    * argument raised to at least 10. */
  function RotationIntervalFor(arg: Option<string>): (r: int)
    ensures r >= MIN_ROTATION_INTERVAL
    ensures arg.None? ==> r == DEFAULT_ROTATION_INTERVAL
    ensures arg.Some? && Atoi(arg.value, 0) >= MIN_ROTATION_INTERVAL ==> r == Atoi(arg.value, 0)
    ensures arg.Some? && Atoi(arg.value, 0) < MIN_ROTATION_INTERVAL ==> r == MIN_ROTATION_INTERVAL
  {
    match arg
    case None => DEFAULT_ROTATION_INTERVAL
    case Some(s) =>
      var n := Atoi(s, 0);
      if n < MIN_ROTATION_INTERVAL then MIN_ROTATION_INTERVAL else n
  }

  /** The helper's global state: the parsed keys, the rotation interval and
    * the time of the last rotation check. */
  class Helper {
    const keys: array<KeyConfig>
    var keyCount: int
    const rotationInterval: int
    var lastRotationCheck: int

    predicate Valid()
      reads this
    {
      keys.Length == MAX_KEYS && 0 <= keyCount <= MAX_KEYS && rotationInterval >= MIN_ROTATION_INTERVAL
    }

    /** Start-up state: no keys, and the interval from the optional fifth
      * command-line argument. */
    constructor(intervalArg: Option<string>)
      ensures Valid() && fresh(keys)
      ensures keyCount == 0 && lastRotationCheck == 0
      ensures rotationInterval == RotationIntervalFor(intervalArg)
    {
      keys := new KeyConfig[MAX_KEYS](_ => KeyConfig(0, "", "", 0, 0, 0, 0));
      keyCount := 0;
      rotationInterval := RotationIntervalFor(intervalArg);
      lastRotationCheck := 0;
    }

    /** main: keeps at most 4095 characters of the key list, parses it and
      * starts the rotation clock; false where main exits. */
    method LoadKeys(keysJson: string, now: int) returns (ok: bool)
      requires Valid()
      modifies this, keys
      ensures Valid()
      ensures var parsed := ParseKeys(Truncated(keysJson, KEYS_JSON_CAP), MAX_KEYS);
        ok == parsed.Some? &&
        (ok ==> keyCount == |parsed.value| && keys[..keyCount] == parsed.value && lastRotationCheck == now)
    {
      var json := Truncated(keysJson, KEYS_JSON_CAP);
      var count := ParseKeysJson(json, keys, MAX_KEYS);
      if count < 0 {
        return false;
      }
      keyCount := count;
      lastRotationCheck := now;
      return true;
    }

    /** run_proxy up to bind: install the keys, and bind only when that
      * succeeded. */
    method Bootstrap(kernel: Kernel, peer: string, port: int, now: int) returns (result: int)
      requires Valid()
      modifies kernel
      ensures var plan := InstallPlan(peer, keys[..keyCount], now);
        var out := Run(kernel.accepts, old(kernel.log), plan);
        if out.ok && plan != [] then
          kernel.log == out.log + [Bind(port)] &&
          result == (if kernel.accepts(Bind(port), out.log) then 0 else -1)
        else
          kernel.log == out.log && result == -1
    {
      result := ConfigureTcpAo(kernel, peer, keys, keyCount, now);
      if result < 0 {
        return -1;
      }
      var ok := kernel.Call(Bind(port));
      if !ok {
        return -1;
      }
      return 0;
    }

    /** delete_all_keys: asks to delete every key (with prefix 0), whatever
      * the kernel answers, and returns 0. */
    method DeleteAllKeys(kernel: Kernel, peer: string) returns (result: int)
      requires Valid()
      modifies kernel
      ensures kernel.log == old(kernel.log) + DeleteAllPlan(peer, keys[..keyCount])
      ensures result == 0
    {
      ghost var log0 := kernel.log;
      for i := 0 to keyCount
        invariant kernel.log == log0 + DeleteAllPlan(peer, keys[..i])
      {
        assert keys[..i + 1] == keys[..i] + [keys[i]];
        var _ := kernel.Call(DelCall(peer, keys[i], 0));
      }
      return 0;
    }

    /** The first loop of check_and_rotate_keys: which keys became valid
      * and which became invalid over the last interval. */
    method DiffValidity(now: int) returns (keysToAdd: array<bool>, keysToRemove: array<bool>, needsUpdate: bool)
      requires Valid()
      ensures fresh(keysToAdd) && fresh(keysToRemove)
      ensures keysToAdd.Length == MAX_KEYS && keysToRemove.Length == MAX_KEYS
      ensures forall j :: 0 <= j < keyCount ==> keysToAdd[j] == BecameValid(keys[j], now, rotationInterval)
      ensures forall j :: 0 <= j < keyCount ==> keysToRemove[j] == BecameInvalid(keys[j], now, rotationInterval)
      ensures needsUpdate <==>
        exists j :: 0 <= j < keyCount && (BecameValid(keys[j], now, rotationInterval) || BecameInvalid(keys[j], now, rotationInterval))
    {
      needsUpdate := false;
      keysToAdd := new bool[MAX_KEYS](_ => false);
      keysToRemove := new bool[MAX_KEYS](_ => false);
      for i := 0 to keyCount
        modifies keysToAdd, keysToRemove
        invariant forall j :: i <= j < MAX_KEYS ==> !keysToAdd[j] && !keysToRemove[j]
        invariant forall j :: 0 <= j < i ==> keysToAdd[j] == BecameValid(keys[j], now, rotationInterval)
        invariant forall j :: 0 <= j < i ==> keysToRemove[j] == BecameInvalid(keys[j], now, rotationInterval)
        invariant needsUpdate <==> exists j :: 0 <= j < i && (keysToAdd[j] || keysToRemove[j])
      {
        var wasValid := ValidForSend(keys[i], now - rotationInterval) || ValidForRecv(keys[i], now - rotationInterval);
        var isValid := ValidForSend(keys[i], now) || ValidForRecv(keys[i], now);
        if !wasValid && isValid {
          keysToAdd[i] := true;
          needsUpdate := true;
        } else if wasValid && !isValid {
          keysToRemove[i] := true;
          needsUpdate := true;
        }
      }
    }

    /** The second loop of check_and_rotate_keys: add_single_key for every
      * key flagged, in order, going on after a failure; the call for key i
      * reads the clock as addClock(i). */
    method IssueAdds(kernel: Kernel, peer: string, keysToAdd: array<bool>, now: int, addClock: nat -> int)
      requires Valid() && keysToAdd.Length == MAX_KEYS
      requires forall j :: 0 <= j < keyCount ==> keysToAdd[j] == BecameValid(keys[j], now, rotationInterval)
      modifies kernel
      ensures kernel.log == old(kernel.log) + RotationAdds(peer, keys[..keyCount], now, rotationInterval, addClock, keyCount)
    {
      ghost var ks := keys[..keyCount];
      ghost var log0 := kernel.log;
      for i := 0 to keyCount
        invariant kernel.log == log0 + RotationAdds(peer, ks, now, rotationInterval, addClock, i)
      {
        assert ks[i] == keys[i];
        if keysToAdd[i] {
          var _ := AddSingleKey(kernel, peer, keys[i], addClock(i));
        }
      }
    }

    /** The third loop of check_and_rotate_keys: delete_single_key for every
      * key flagged, in order, going on after a failure. */
    method IssueRemoves(kernel: Kernel, peer: string, keysToRemove: array<bool>, now: int)
      requires Valid() && keysToRemove.Length == MAX_KEYS
      requires forall j :: 0 <= j < keyCount ==> keysToRemove[j] == BecameInvalid(keys[j], now, rotationInterval)
      modifies kernel
      ensures kernel.log == old(kernel.log) + RotationRemoves(peer, keys[..keyCount], now, rotationInterval, keyCount)
    {
      ghost var ks := keys[..keyCount];
      ghost var log0 := kernel.log;
      for i := 0 to keyCount
        invariant kernel.log == log0 + RotationRemoves(peer, ks, now, rotationInterval, i)
      {
        assert ks[i] == keys[i];
        if keysToRemove[i] {
          var _ := DeleteSingleKey(kernel, peer, keys[i]);
        }
      }
    }

    /** check_and_rotate_keys: nothing before the interval has passed since
      * the last check; otherwise restarts the interval and issues every add
      * of the tick, then every remove, whatever the kernel answers. `now`
      * is the tick's clock reading and addClock(i) the one add_single_key
      * makes for key i. */
    method CheckAndRotateKeys(kernel: Kernel, peer: string, now: int, addClock: nat -> int)
      requires Valid()
      modifies this, kernel
      ensures Valid() && keyCount == old(keyCount)
      ensures now - old(lastRotationCheck) < rotationInterval ==>
        lastRotationCheck == old(lastRotationCheck) && kernel.log == old(kernel.log)
      ensures now - old(lastRotationCheck) >= rotationInterval ==>
        lastRotationCheck == now &&
        kernel.log == old(kernel.log) + RotationPlan(peer, keys[..keyCount], now, rotationInterval, addClock)
    {
      if now - lastRotationCheck < rotationInterval {
        return;
      }
      lastRotationCheck := now;
      RotateKeys(kernel, peer, now, addClock);
    }

    /** The body of check_and_rotate_keys once the interval has passed. */
    method RotateKeys(kernel: Kernel, peer: string, now: int, addClock: nat -> int)
      requires Valid()
      modifies kernel
      ensures kernel.log == old(kernel.log) + RotationPlan(peer, keys[..keyCount], now, rotationInterval, addClock)
    {
      ghost var ks := keys[..keyCount];
      var keysToAdd, keysToRemove, needsUpdate := DiffValidity(now);
      if !needsUpdate {
        RotationNoChange(peer, ks, now, rotationInterval, addClock);
        assert RotationPlan(peer, ks, now, rotationInterval, addClock) == [];
        return;
      }
      IssueAdds(kernel, peer, keysToAdd, now, addClock);
      IssueRemoves(kernel, peer, keysToRemove, now);
    }
  }
}
