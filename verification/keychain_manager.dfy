/** The keychain store of the desktop application: keychains saved and
  * deleted by id, the lookup of the key active at a given time, and the
  * export of a keychain's keys as the records the TCP-AO helper reads.
  * Times are milliseconds since the Unix epoch, passed in by the caller. */
module KeychainManager {
  import opened Base
  import opened TcpAoJson
  import TcpAo

  /** `new Date('2099-12-31')`: midnight UTC at the start of that day. */
  const FOREVER_MS: int := 4102358400000

  /** A lifetime bound as it is stored: the words 'always' and 'forever',
    * a date string JavaScript's Date understands (given by its instant),
    * or one it does not (an Invalid Date, whose comparisons are all false). */
  datatype TimeText = Always | Forever | Instant(ms: int) | Unparsable

  datatype Lifetime = Lifetime(start: TimeText, end: TimeText)

  datatype Key = Key(
    keyId: int,
    algorithm: string,
    password: string,
    sendLifetime: Lifetime,
    acceptLifetime: Lifetime)

  datatype Keychain = Keychain(id: string, name: string, keys: seq<Key>)

  /** One element of the array generateTcpAoKeysJson serialises. A time
    * that is not a number (NaN from an unparsable date) is None. */
  datatype TcpAoRecord = TcpAoRecord(
    keyId: int,
    algorithm: string,
    password: string,
    sendStart: Option<int>,
    sendEnd: Option<int>,
    acceptStart: Option<int>,
    acceptEnd: Option<int>)

  // ---------------------------------------------------------------------
  // Lookup by id (Array.prototype.findIndex / find)
  // ---------------------------------------------------------------------

  /** The index of the first keychain with this id, or -1. */
  function FindIndex(list: seq<Keychain>, id: string): (i: int)
    ensures -1 <= i < |list|
    ensures i >= 0 ==> list[i].id == id && forall j :: 0 <= j < i ==> list[j].id != id
    ensures i == -1 <==> forall j :: 0 <= j < |list| ==> list[j].id != id
  {
    if list == [] then -1
    else if list[0].id == id then 0
    else
      var j := FindIndex(list[1..], id);
      if j < 0 then -1 else j + 1
  }

  /** getKeychainById: the first keychain with this id, if any. */
  function FindKeychain(list: seq<Keychain>, id: string): (r: Option<Keychain>)
    ensures r.None? <==> forall j :: 0 <= j < |list| ==> list[j].id != id
    ensures r.Some? ==> r.value in list && r.value.id == id
  {
    var i := FindIndex(list, id);
    if i < 0 then None else Some(list[i])
  }

  // ---------------------------------------------------------------------
  // saveKeychain and deleteKeychain
  // ---------------------------------------------------------------------

  /** The list saveKeychain stores: the first entry with the same id is
    * replaced where it stands, otherwise the keychain is appended. */
  function Saved(list: seq<Keychain>, kc: Keychain): (r: seq<Keychain>)
    ensures FindKeychain(r, kc.id) == Some(kc)
    ensures (exists j :: 0 <= j < |list| && list[j].id == kc.id) ==> |r| == |list|
    ensures (forall j :: 0 <= j < |list| ==> list[j].id != kc.id) ==> r == list + [kc]
    ensures forall j :: 0 <= j < |list| && list[j].id != kc.id ==> r[j] == list[j]
    ensures |list| <= |r|
    ensures FindIndex(list, kc.id) >= 0 ==> r[FindIndex(list, kc.id)] == kc
    ensures forall j :: 0 <= j < |list| && j != FindIndex(list, kc.id) ==> r[j] == list[j]
  {
    var i := FindIndex(list, kc.id);
    var r := if i >= 0 then list[i := kc] else list + [kc];
    FindIndexIs(r, kc.id, if i >= 0 then i else |list|);
    r
  }

  /** The list deleteKeychain stores: every entry with the given id is
    * dropped and the others keep their order. */
  function Deleted(list: seq<Keychain>, id: string): (r: seq<Keychain>)
    ensures r == Others(list, id)
    ensures forall x :: x in r <==> x in list && x.id != id
    ensures |r| <= |list|
    ensures (forall j :: 0 <= j < |list| ==> list[j].id != id) ==> r == list
  {
    if list == [] then []
    else
      var rest := Deleted(list[..|list| - 1], id);
      var last := list[|list| - 1];
      assert list == list[..|list| - 1] + [last];
      OthersSnoc(list[..|list| - 1], last, id);
      if last.id == id then rest else rest + [last]
  }

  /** Array.prototype.filter with `k.id !== id`, read from the front: the
    * reference the stored list is compared with. */
  function Others(list: seq<Keychain>, id: string): seq<Keychain>
  {
    if list == [] then []
    else (if list[0].id == id then [] else [list[0]]) + Others(list[1..], id)
  }

  lemma {:induction false} OthersSnoc(init: seq<Keychain>, last: Keychain, id: string)
    ensures Others(init + [last], id) == Others(init, id) + (if last.id == id then [] else [last])
    decreases |init|
  {
    if init == [] {
      assert [] + [last] == [last];
      assert [last][1..] == [];
    } else {
      assert (init + [last])[1..] == init[1..] + [last];
      OthersSnoc(init[1..], last, id);
    }
  }

  /** Once deleted, a keychain is no longer found. */
  lemma DeletedIsGone(list: seq<Keychain>, id: string)
    ensures FindKeychain(Deleted(list, id), id).None?
  {
    var r := Deleted(list, id);
    forall j | 0 <= j < |r| ensures r[j].id != id {
      assert r[j] in r;
    }
  }

  /** Deleting one id leaves every keychain with another id where the
    * lookup finds it. */
  lemma {:induction false} DeleteKeepsOthers(list: seq<Keychain>, id: string, other: string)
    requires other != id
    ensures FindKeychain(Deleted(list, id), other) == FindKeychain(list, other)
  {
    if list != [] {
      var init := list[..|list| - 1];
      var last := list[|list| - 1];
      assert list == init + [last];
      DeleteKeepsOthers(init, id, other);
      FindIndexSnoc(init, last, other);
      if last.id == id {
        assert Deleted(list, id) == Deleted(init, id);
      } else {
        assert Deleted(list, id) == Deleted(init, id) + [last];
        FindIndexSnoc(Deleted(init, id), last, other);
      }
    }
  }

  /** Any index meeting FindIndex's contract is the one it returns. */
  lemma FindIndexIs(list: seq<Keychain>, id: string, i: int)
    requires -1 <= i < |list|
    requires i >= 0 ==> list[i].id == id && forall j :: 0 <= j < i ==> list[j].id != id
    requires i == -1 ==> forall j :: 0 <= j < |list| ==> list[j].id != id
    ensures FindIndex(list, id) == i
  {
  }

  /** Appending an element does not change an earlier first match. */
  lemma FindIndexSnoc(list: seq<Keychain>, x: Keychain, id: string)
    ensures FindKeychain(list + [x], id)
         == (if FindIndex(list, id) >= 0 then FindKeychain(list, id) else if x.id == id then Some(x) else None)
  {
    var i := FindIndex(list, id);
    var l := list + [x];
    if i >= 0 {
      assert l[i] == list[i];
      assert forall j :: 0 <= j < i ==> l[j] == list[j];
      FindIndexIs(l, id, i);
    } else if x.id == id {
      assert forall j :: 0 <= j < |list| ==> l[j] == list[j];
      FindIndexIs(l, id, |list|);
    } else {
      assert forall j :: 0 <= j < |list| ==> l[j] == list[j];
      FindIndexIs(l, id, -1);
    }
  }

  /** Saving one keychain leaves the lookup of every other id unchanged. */
  lemma SaveKeepsOthers(list: seq<Keychain>, kc: Keychain, other: string)
    requires other != kc.id
    ensures FindKeychain(Saved(list, kc), other) == FindKeychain(list, other)
  {
    var r := Saved(list, kc);
    var i := FindIndex(list, kc.id);
    if i >= 0 {
      assert forall j :: 0 <= j < |r| ==> (r[j].id == other <==> list[j].id == other);
      var m := FindIndex(list, other);
      if m >= 0 {
        assert r[m] == list[m];
        assert FindIndex(r, other) == m;
      }
    } else {
      FindIndexSnoc(list, kc, other);
    }
  }

  // ---------------------------------------------------------------------
  // getActiveKey
  // ---------------------------------------------------------------------

  /** A start bound as a Date: 'always' is the epoch; anything but a date
    * is NaN (None). */
  function StartMs(t: TimeText): Option<int>
  {
    match t
    case Always => Some(0)
    case Instant(ms) => Some(ms)
    case _ => None
  }

  /** An end bound as a Date: 'forever' is 2099-12-31. */
  function EndMs(t: TimeText): Option<int>
  {
    match t
    case Forever => Some(FOREVER_MS)
    case Instant(ms) => Some(ms)
    case _ => None
  }

  /** now >= start && now <= end, where a NaN bound makes both false. */
  function Covers(life: Lifetime, now: int): (r: bool)
    ensures life == Lifetime(Always, Forever) ==> (r <==> 0 <= now <= FOREVER_MS)
    ensures life.start.Instant? && life.end.Instant? ==> (r <==> life.start.ms <= now <= life.end.ms)
    ensures life.start.Always? && life.end.Instant? ==> (r <==> 0 <= now <= life.end.ms)
    ensures life.start.Instant? && life.end.Forever? ==> (r <==> life.start.ms <= now <= FOREVER_MS)
    ensures (life.start.Forever? || life.start.Unparsable? || life.end.Always? || life.end.Unparsable?) ==> !r
  {
    var s, e := StartMs(life.start), EndMs(life.end);
    s.Some? && e.Some? && s.value <= now && now <= e.value
  }

  /** The predicate getActiveKey's find applies to each key. */
  predicate IsActive(k: Key, now: int)
  {
    Covers(k.sendLifetime, now) && Covers(k.acceptLifetime, now)
  }

  /** The index of the first key active at now, or -1. */
  function ActiveIndex(keys: seq<Key>, now: int): (i: int)
    ensures -1 <= i < |keys|
    ensures i >= 0 ==> IsActive(keys[i], now) && forall j :: 0 <= j < i ==> !IsActive(keys[j], now)
    ensures i == -1 <==> forall j :: 0 <= j < |keys| ==> !IsActive(keys[j], now)
  {
    if keys == [] then -1
    else if IsActive(keys[0], now) then 0
    else
      var j := ActiveIndex(keys[1..], now);
      if j < 0 then -1 else j + 1
  }

  /** getActiveKey: null for an unknown keychain, otherwise the first key
    * in list order whose send and accept lifetimes both contain now. */
  function GetActiveKey(list: seq<Keychain>, id: string, now: int): (r: Option<Key>)
    ensures FindKeychain(list, id).None? ==> r.None?
    ensures r.Some? ==> exists i :: 0 <= i < |FindKeychain(list, id).value.keys|
                          && FindKeychain(list, id).value.keys[i] == r.value
                          && IsActive(r.value, now)
                          && forall j :: 0 <= j < i ==> !IsActive(FindKeychain(list, id).value.keys[j], now)
    ensures FindKeychain(list, id).Some? && r.None? ==>
              forall k :: k in FindKeychain(list, id).value.keys ==> !IsActive(k, now)
  {
    match FindKeychain(list, id)
    case None => None
    case Some(kc) =>
      var i := ActiveIndex(kc.keys, now);
      if i < 0 then None else Some(kc.keys[i])
  }

  // ---------------------------------------------------------------------
  // generateTcpAoKeysJson
  // ---------------------------------------------------------------------

  /** The kernel algorithm name for a keychain algorithm: SHA-1 keeps its
    * hash, SHA-256, MD5 and any other name become hmac(sha256). */
  function KernelAlgorithm(alg: string): (r: string)
    ensures r == "hmac(sha1)" || r == "hmac(sha256)"
    ensures r == "hmac(sha1)" <==> alg == "hmac-sha-1"
  {
    if alg == "hmac-sha-1" then "hmac(sha1)"
    else if alg == "hmac-sha-256" then "hmac(sha256)"
    else if alg == "md5" then "hmac(sha256)"
    else "hmac(sha256)"
  }

  /** A lifetime bound in Unix seconds: the open word ('always' for a
    * start, 'forever' for an end) is 0, a date is floor(ms / 1000), and
    * anything else is NaN. */
  function ExportTime(t: TimeText, open: TimeText): (r: Option<int>)
    requires open == Always || open == Forever
    ensures t == open ==> r == Some(0)
    ensures t.Instant? ==> r.Some? && r.value * 1000 <= t.ms < r.value * 1000 + 1000
    ensures t != open && !t.Instant? ==> r.None?
  {
    if t == open then Some(0)
    else match t
      case Instant(ms) => Some(ms / 1000)
      case _ => None
  }

  /** The record generateTcpAoKeysJson pushes for one key. */
  function ExportRecord(k: Key): (r: TcpAoRecord)
    ensures r.keyId == k.keyId && r.password == k.password
    ensures r.algorithm == KernelAlgorithm(k.algorithm)
    ensures r.sendStart == ExportTime(k.sendLifetime.start, Always)
    ensures r.sendEnd == ExportTime(k.sendLifetime.end, Forever)
    ensures r.acceptStart == ExportTime(k.acceptLifetime.start, Always)
    ensures r.acceptEnd == ExportTime(k.acceptLifetime.end, Forever)
  {
    TcpAoRecord(k.keyId, KernelAlgorithm(k.algorithm), k.password,
                ExportTime(k.sendLifetime.start, Always), ExportTime(k.sendLifetime.end, Forever),
                ExportTime(k.acceptLifetime.start, Always), ExportTime(k.acceptLifetime.end, Forever))
  }

  /** The key the helper builds from a record whose times are numbers. */
  function AsKeyConfig(r: TcpAoRecord): KeyConfig
    requires r.sendStart.Some? && r.sendEnd.Some? && r.acceptStart.Some? && r.acceptEnd.Some?
  {
    KeyConfig(r.keyId, r.algorithm, r.password,
              r.sendStart.value, r.sendEnd.value, r.acceptStart.value, r.acceptEnd.value)
  }

  /** Flooring to whole seconds keeps the order of two instants. */
  lemma FloorMonotone(a: int, b: int)
    requires a <= b
    ensures a / 1000 <= b / 1000
  {
  }

  /** A key that getActiveKey would pick at now (milliseconds) is exported
    * as a record the helper treats as valid for sending and for accepting
    * at now in whole seconds: 0 for 'always' and 'forever' is an absent
    * bound there, and flooring keeps both inclusive comparisons. */
  lemma ActiveKeyExportsValid(k: Key, now: int)
    requires IsActive(k, now)
    ensures var r := ExportRecord(k);
            r.sendStart.Some? && r.sendEnd.Some? && r.acceptStart.Some? && r.acceptEnd.Some?
            && TcpAo.ValidForSend(AsKeyConfig(r), now / 1000)
            && TcpAo.ValidForRecv(AsKeyConfig(r), now / 1000)
  {
    ExportedWindow(k.sendLifetime, now);
    ExportedWindow(k.acceptLifetime, now);
  }

  lemma ExportedWindow(life: Lifetime, now: int)
    requires Covers(life, now)
    ensures var s, e := ExportTime(life.start, Always), ExportTime(life.end, Forever);
            s.Some? && e.Some? && TcpAo.InWindow(s.value, e.value, now / 1000)
  {
    if life.start.Instant? {
      FloorMonotone(life.start.ms, now);
    }
    if life.end.Instant? {
      FloorMonotone(now, life.end.ms);
    }
  }

  // ---------------------------------------------------------------------
  // The manager object
  // ---------------------------------------------------------------------

  /** KeychainManager with the persisted keychain list as its state. */
  class Manager {
    var keychains: seq<Keychain>

    constructor(stored: seq<Keychain>)
      ensures keychains == stored
    {
      keychains := stored;
    }

    method SaveKeychain(kc: Keychain)
      modifies this
      ensures keychains == Saved(old(keychains), kc)
    {
      var index := FindIndex(keychains, kc.id);
      if index >= 0 {
        keychains := keychains[index := kc];
      } else {
        keychains := keychains + [kc];
      }
    }

    method DeleteKeychain(id: string)
      modifies this
      ensures keychains == Deleted(old(keychains), id)
    {
      keychains := Deleted(keychains, id);
    }

    /** The records, in key order, or None for an unknown keychain or one
      * without keys. */
    method GenerateTcpAoKeysJson(id: string) returns (r: Option<seq<TcpAoRecord>>)
      ensures r.None? <==> FindKeychain(keychains, id).None? || FindKeychain(keychains, id).value.keys == []
      ensures r.Some? ==> |r.value| == |FindKeychain(keychains, id).value.keys|
                          && forall i :: 0 <= i < |r.value| ==>
                               r.value[i] == ExportRecord(FindKeychain(keychains, id).value.keys[i])
    {
      var found := FindKeychain(keychains, id);
      if found.None? {
        return None;
      }
      var keys := found.value.keys;
      var records: seq<TcpAoRecord> := [];
      var i := 0;
      while i < |keys|
        invariant 0 <= i <= |keys|
        invariant |records| == i
        invariant forall j :: 0 <= j < i ==> records[j] == ExportRecord(keys[j])
      {
        var k := keys[i];
        var alg := "hmac(sha256)";
        if k.algorithm == "hmac-sha-1" {
          alg := "hmac(sha1)";
        } else if k.algorithm == "hmac-sha-256" {
          alg := "hmac(sha256)";
        } else if k.algorithm == "md5" {
          alg := "hmac(sha256)";
        }
        var sendStart := ExportTime(k.sendLifetime.start, Always);
        var sendEnd := ExportTime(k.sendLifetime.end, Forever);
        var acceptStart := ExportTime(k.acceptLifetime.start, Always);
        var acceptEnd := ExportTime(k.acceptLifetime.end, Forever);
        records := records + [TcpAoRecord(k.keyId, alg, k.password, sendStart, sendEnd, acceptStart, acceptEnd)];
        i := i + 1;
      }
      if |records| == 0 {
        return None;
      }
      return Some(records);
    }
  }
}
