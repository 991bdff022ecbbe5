/** The key-list reader of the TCP-AO helper: a small scanner that turns a
  * JSON array of key objects into key records, one character at a time.
  * The input is a C string: reading at or past its end yields NUL. */
module TcpAoJson {
  import opened Base

  const MAX_KEYS: int := 10
  const MAX_PASSWORD_LEN: int := 80
  const MAX_ALG_NAME: int := 64
  /** Size of the buffer one key object is copied into, terminator included. */
  const OBJ_BUF_SIZE: int := 1024

  /** One TCP-AO key with its send and accept lifetimes in Unix seconds;
    * a bound of 0 means "no bound". */
  datatype KeyConfig = KeyConfig(
    keyId: int,
    algorithm: string,
    password: string,
    sendStart: int,
    sendEnd: int,
    acceptStart: int,
    acceptEnd: int)

  /** The character at i of a C string; NUL at and beyond its end. */
  function At(s: string, i: int): char
  {
    if 0 <= i < |s| then s[i] else '\0'
  }

  /** isspace() in the C locale. */
  predicate IsSpace(c: char)
  {
    c == ' ' || c == '\t' || c == '\n' || c == '\U{000B}' || c == '\U{000C}' || c == '\r'
  }

  // ---------------------------------------------------------------------
  // Specification functions
  // ---------------------------------------------------------------------

  /** The first position at or after i that does not hold white space
    * (SkipWsSpec states it). */
  function SkipWs(s: string, i: nat): (j: nat)
    requires i <= |s|
    ensures i <= j <= |s|
    decreases |s| - i
  {
    if i < |s| && IsSpace(s[i]) then SkipWs(s, i + 1) else i
  }

  lemma {:induction false} SkipWsSpec(s: string, i: nat)
    requires i <= |s|
    ensures forall k :: i <= k < SkipWs(s, i) ==> IsSpace(s[k])
    ensures !IsSpace(At(s, SkipWs(s, i)))
    decreases |s| - i
  {
    if i < |s| && IsSpace(s[i]) {
      SkipWsSpec(s, i + 1);
    }
  }

  predicate MatchesAt(hay: string, needle: string, k: int)
  {
    0 <= k && k + |needle| <= |hay| && hay[k..k + |needle|] == needle
  }

  /** strstr from position `from`: the first occurrence of needle at or
    * after it (FindFromSpec states it). */
  function FindFrom(hay: string, needle: string, from: nat): (r: Option<nat>)
    ensures r.Some? ==> from <= r.value && r.value + |needle| <= |hay|
    decreases |hay| - from
  {
    if from + |needle| > |hay| then None
    else if MatchesAt(hay, needle, from) then Some(from)
    else FindFrom(hay, needle, from + 1)
  }

  lemma {:induction false} FindFromSpec(hay: string, needle: string, from: nat)
    ensures FindFrom(hay, needle, from).Some? ==> MatchesAt(hay, needle, FindFrom(hay, needle, from).value)
    ensures FindFrom(hay, needle, from).Some? ==>
      forall k :: from <= k < FindFrom(hay, needle, from).value ==> !MatchesAt(hay, needle, k)
    ensures FindFrom(hay, needle, from).None? ==> forall k :: from <= k ==> !MatchesAt(hay, needle, k)
    decreases |hay| - from
  {
    if from + |needle| <= |hay| && !MatchesAt(hay, needle, from) {
      FindFromSpec(hay, needle, from + 1);
    }
  }

  function Find(hay: string, needle: string): Option<nat>
  {
    FindFrom(hay, needle, 0)
  }

  /** The key as the scanner searches for it: wrapped in double quotes. */
  function Quoted(key: string): string
  {
    "\"" + key + "\""
  }

  /** Where the value of `key` starts: after the first `"key"`, blanks, a
    * colon and blanks; None when the key is absent or no colon follows. */
  function ValueStart(obj: string, key: string): (r: Option<nat>)
    ensures r.Some? ==> r.value <= |obj|
  {
    match Find(obj, Quoted(key))
    case None => None
    case Some(p) =>
      var q := SkipWs(obj, p + |Quoted(key)|);
      if At(obj, q) != ':' then None else Some(SkipWs(obj, q + 1))
  }

  /** The characters from i up to the next double quote or NUL, at most cap
    * of them (CopyUntilQuoteSpec states it). */
  function CopyUntilQuote(s: string, i: nat, cap: nat): (v: string)
    requires i <= |s|
    ensures |v| <= cap && i + |v| <= |s|
    decreases cap
  {
    if i < |s| && s[i] != '"' && s[i] != '\0' && cap > 0 then [s[i]] + CopyUntilQuote(s, i + 1, cap - 1)
    else []
  }

  lemma {:induction false} CopyUntilQuoteSpec(s: string, i: nat, cap: nat)
    requires i <= |s|
    ensures var v := CopyUntilQuote(s, i, cap);
      v == s[i..i + |v|] && (forall k :: i <= k < i + |v| ==> s[k] != '"' && s[k] != '\0') &&
      (|v| == cap || At(s, i + |v|) == '"' || At(s, i + |v|) == '\0')
    decreases cap
  {
    if i < |s| && s[i] != '"' && s[i] != '\0' && cap > 0 {
      CopyUntilQuoteSpec(s, i + 1, cap - 1);
      var w := CopyUntilQuote(s, i + 1, cap - 1);
      assert [s[i]] + s[i + 1..i + 1 + |w|] == s[i..i + 1 + |w|];
    }
  }

  /** The value digits of a run starting at k, accumulated onto acc. */
  function DigitRun(s: string, k: nat, acc: int): int
    requires k <= |s|
    decreases |s| - k
  {
    if k < |s| && IsDigit(s[k]) then DigitRun(s, k + 1, acc * 10 + (s[k] as int - '0' as int)) else acc
  }

  /** C atoi on the string starting at i: blanks, an optional sign, digits. */
  function Atoi(s: string, i: nat): int
    requires i <= |s|
  {
    var j := SkipWs(s, i);
    var k := if At(s, j) == '-' || At(s, j) == '+' then j + 1 else j;
    var d := DigitRun(s, k, 0);
    if At(s, j) == '-' then -d else d
  }

  /** find_int_value: the integer after `"key":`, or None. */
  function IntValue(obj: string, key: string): Option<int>
  {
    match ValueStart(obj, key)
    case None => None
    case Some(v) => Some(Atoi(obj, v))
  }

  /** find_string_value: the quoted text after `"key":`, cut to maxLen - 1
    * characters, or None when the value does not start with a quote. */
  function StringValue(obj: string, key: string, maxLen: int): (r: Option<string>)
    requires maxLen >= 1
    ensures r.Some? ==> |r.value| < maxLen
  {
    match ValueStart(obj, key)
    case None => None
    case Some(v) =>
      if At(obj, v) != '"' then None else Some(CopyUntilQuote(obj, v + 1, maxLen - 1))
  }

  function IntOrZero(obj: string, key: string): int
  {
    match IntValue(obj, key)
    case None => 0
    case Some(n) => n
  }

  /** The key record an object's text describes, or None when keyId,
    * algorithm or password is missing. */
  function KeyFields(obj: string): (r: Option<KeyConfig>)
    ensures r.Some? ==> FitsBuffers(r.value)
  {
    match IntValue(obj, "keyId")
    case None => None
    case Some(id) =>
      match StringValue(obj, "algorithm", MAX_ALG_NAME)
      case None => None
      case Some(alg) =>
        match StringValue(obj, "password", MAX_PASSWORD_LEN)
        case None => None
        case Some(pw) =>
          Some(KeyConfig(id, alg, pw, IntOrZero(obj, "sendStart"), IntOrZero(obj, "sendEnd"),
                         IntOrZero(obj, "acceptStart"), IntOrZero(obj, "acceptEnd")))
  }

  /** The algorithm and password fit their NUL-terminated C buffers. */
  predicate FitsBuffers(k: KeyConfig)
  {
    |k.algorithm| < MAX_ALG_NAME && |k.password| < MAX_PASSWORD_LEN
  }

  function BraceDelta(c: char): int
  {
    if c == '{' then 1 else if c == '}' then -1 else 0
  }

  /** Opening minus closing braces in s[i..e]. */
  function Balance(s: string, i: int, e: int): int
    requires 0 <= i && e <= |s|
    decreases e - i
  {
    if i >= e then 0 else BraceDelta(s[i]) + Balance(s, i + 1, e)
  }

  /** s[i..e] holds no NUL, so a C scan runs through it. */
  predicate NulFree(s: string, i: int, e: int)
    requires 0 <= i && e <= |s|
  {
    forall k :: i <= k < e ==> s[k] != '\0'
  }

  /** The end (exclusive) of the object whose body starts at i with `depth`
    * braces open: the first point where the count drops to zero, scanning
    * no further than the terminating NUL (BraceEndSpec states it). */
  function BraceEnd(s: string, i: nat, depth: nat): (r: Option<nat>)
    requires i <= |s| && depth > 0
    ensures r.Some? ==> i < r.value <= |s|
    decreases |s| - i
  {
    if At(s, i) == '\0' then None
    else
      var d := depth + BraceDelta(s[i]);
      if d == 0 then Some(i + 1)
      else BraceEnd(s, i + 1, d)
  }

  lemma {:induction false} BraceEndSpec(s: string, i: nat, depth: nat)
    requires i <= |s| && depth > 0
    ensures var r := BraceEnd(s, i, depth);
      r.Some? ==> (NulFree(s, i, r.value) && depth + Balance(s, i, r.value) == 0 &&
                   forall e :: i <= e < r.value ==> depth + Balance(s, i, e) > 0)
    ensures BraceEnd(s, i, depth).None? ==>
      forall e :: i <= e <= |s| && NulFree(s, i, e) ==> depth + Balance(s, i, e) > 0
    decreases |s| - i
  {
    if At(s, i) != '\0' && depth + BraceDelta(s[i]) != 0 {
      BraceEndSpec(s, i + 1, depth + BraceDelta(s[i]));
    }
  }

  /** What one round of the object loop finds after `pos`: the closing
    * bracket, a syntax error, or the text of the next object (at most
    * OBJ_BUF_SIZE - 1 characters) and where the scan resumes. */
  datatype Step = Close | Bad | Object(text: string, next: nat)

  function NextStep(s: string, pos: nat, first: bool): (r: Step)
    requires pos <= |s|
    ensures r.Object? ==> pos < r.next <= |s| && |r.text| < OBJ_BUF_SIZE
    ensures r.Object? ==> |r.text| >= 2 && r.text[0] == '{' && r.text[|r.text| - 1] == '}'
  {
    var p := SkipWs(s, pos);
    if At(s, p) == ']' then Close
    else if !first && At(s, p) != ',' then Bad
    else
      var q := if first then p else SkipWs(s, p + 1);
      if At(s, q) != '{' then Bad
      else
        match BraceEnd(s, q + 1, 1)
        case None => Bad
        case Some(e) =>
          if e - q >= OBJ_BUF_SIZE then Bad
          else
            assert s[e - 1] == '}' by { BraceEndSpec(s, q + 1, 1); ClosingBrace(s, q + 1, e); }
            Object(s[q..e], e)
  }

  /** The character that brings the count to zero is a closing brace. */
  lemma ClosingBrace(s: string, i: nat, e: nat)
    requires i < e <= |s|
    requires 1 + Balance(s, i, e) == 0 && forall k :: i <= k < e ==> 1 + Balance(s, i, k) > 0
    ensures s[e - 1] == '}'
  {
    BalanceSnoc(s, i, e - 1);
  }

  lemma {:induction false} BalanceSnoc(s: string, i: nat, e: nat)
    requires i <= e < |s|
    ensures Balance(s, i, e + 1) == Balance(s, i, e) + BraceDelta(s[e])
    decreases e - i
  {
    if i < e {
      BalanceSnoc(s, i + 1, e);
    }
  }

  /** The texts of the objects of the array from pos on, when `count` have
    * been read before and at most maxKeys are read in all; None on a
    * syntax error. */
  function ObjectsFrom(s: string, pos: nat, count: nat, maxKeys: int): (r: Option<seq<string>>)
    requires pos <= |s|
    ensures r.Some? ==> count + |r.value| <= if count < maxKeys then maxKeys else count
    decreases |s| - pos
  {
    if count >= maxKeys then Some([])
    else
      match NextStep(s, pos, count == 0)
      case Close => Some([])
      case Bad => None
      case Object(text, e) => Prepend([text], ObjectsFrom(s, e, count + 1, maxKeys))
  }

  function Prepend(head: seq<string>, r: Option<seq<string>>): Option<seq<string>>
  {
    match r
    case None => None
    case Some(tail) => Some(head + tail)
  }

  /** Prepending no texts changes nothing, and texts followed by none are
    * those texts. */
  lemma PrependNothing(r: Option<seq<string>>)
    ensures Prepend([], r) == r
    ensures r.Some? ==> Prepend(r.value, Some([])) == r
  {
    if r.Some? {
      assert [] + r.value == r.value + [] == r.value;
    }
  }

  /** The key record each object text describes (None where a required
    * field is missing). */
  function FieldsOf(texts: seq<string>): (r: seq<Option<KeyConfig>>)
    ensures |r| == |texts|
  {
    if texts == [] then []
    else FieldsOf(texts[..|texts| - 1]) + [KeyFields(texts[|texts| - 1])]
  }

  /** All the keys when every object yielded one, else None. */
  function Collect(parsed: seq<Option<KeyConfig>>): (r: Option<seq<KeyConfig>>)
    ensures r.Some? <==> forall k :: 0 <= k < |parsed| ==> parsed[k].Some?
    ensures r.Some? ==> |r.value| == |parsed| && forall k :: 0 <= k < |parsed| ==> parsed[k] == Some(r.value[k])
  {
    if forall k :: 0 <= k < |parsed| ==> parsed[k].Some? then
      Some(seq(|parsed|, k requires 0 <= k < |parsed| => parsed[k].value))
    else None
  }

  /** parse_keys_json: the keys of the array, or None where the C code
    * returns -1. The C code reads the fields of each object before it scans
    * the next one; as every failure gives the same -1, scanning all objects
    * first and reading their fields afterwards gives the same result. */
  function ParseKeys(s: string, maxKeys: int): (r: Option<seq<KeyConfig>>)
    ensures At(s, SkipWs(s, 0)) != '[' ==> r.None?
    ensures r.Some? ==> |r.value| <= if maxKeys < 0 then 0 else maxKeys
  {
    var p := SkipWs(s, 0);
    if At(s, p) != '[' then None
    else
      match ObjectsFrom(s, p + 1, 0, maxKeys)
      case None => None
      case Some(texts) =>
        Collect(FieldsOf(texts))
  }

  // ---------------------------------------------------------------------
  // The scanner
  // ---------------------------------------------------------------------

  method SkipWhitespace(s: string, i: nat) returns (j: nat)
    requires i <= |s|
    ensures j == SkipWs(s, i)
  {
    j := i;
    while At(s, j) != '\0' && IsSpace(At(s, j))
      invariant i <= j <= |s|
      invariant SkipWs(s, j) == SkipWs(s, i)
      decreases |s| - j
    {
      j := j + 1;
    }
  }

  /** The value position after `"key"`, blanks, ':' and blanks (the common
    * head of find_string_value and find_int_value). */
  method FindValueStart(json: string, key: string) returns (r: Option<nat>)
    ensures r == ValueStart(json, key)
  {
    var search := Quoted(key);
    var found := Find(json, search);
    if found.None? {
      return None;
    }
    var pos := SkipWhitespace(json, found.value + |search|);
    if At(json, pos) != ':' {
      return None;
    }
    pos := SkipWhitespace(json, pos + 1);
    return Some(pos);
  }

  method FindStringValue(json: string, key: string, maxLen: int) returns (r: Option<string>)
    requires maxLen >= 1
    ensures r == StringValue(json, key, maxLen)
  {
    var start := FindValueStart(json, key);
    if start.None? {
      return None;
    }
    var pos := start.value;
    if At(json, pos) != '"' {
      return None;
    }
    pos := pos + 1;
    ghost var from := pos;
    var value := "";
    var i := 0;
    while At(json, pos) != '\0' && At(json, pos) != '"' && i < maxLen - 1
      invariant from <= pos <= |json| && i == pos - from && i <= maxLen - 1
      invariant value + CopyUntilQuote(json, pos, maxLen - 1 - i) == CopyUntilQuote(json, from, maxLen - 1)
      decreases |json| - pos
    {
      ghost var rest := CopyUntilQuote(json, pos + 1, maxLen - 1 - i - 1);
      assert CopyUntilQuote(json, pos, maxLen - 1 - i) == [json[pos]] + rest;
      assert value + [json[pos]] + rest == value + ([json[pos]] + rest);
      value := value + [At(json, pos)];
      i := i + 1;
      pos := pos + 1;
    }
    assert CopyUntilQuote(json, pos, maxLen - 1 - i) == [];
    assert value + [] == value;
    return Some(value);
  }

  method FindIntValue(json: string, key: string) returns (r: Option<int>)
    ensures r == IntValue(json, key)
  {
    var start := FindValueStart(json, key);
    if start.None? {
      return None;
    }
    return Some(Atoi(json, start.value));
  }

  /** The fields of one object, read in the order the C code reads them. */
  method ReadKeyFields(obj: string) returns (r: Option<KeyConfig>)
    ensures r == KeyFields(obj)
  {
    var keyId := FindIntValue(obj, "keyId");
    if keyId.None? {
      return None;
    }
    var algorithm := FindStringValue(obj, "algorithm", MAX_ALG_NAME);
    if algorithm.None? {
      return None;
    }
    var password := FindStringValue(obj, "password", MAX_PASSWORD_LEN);
    if password.None? {
      return None;
    }
    var sendStart := FindIntValue(obj, "sendStart");
    var sendEnd := FindIntValue(obj, "sendEnd");
    var acceptStart := FindIntValue(obj, "acceptStart");
    var acceptEnd := FindIntValue(obj, "acceptEnd");
    return Some(KeyConfig(keyId.value, algorithm.value, password.value,
      if sendStart.Some? then sendStart.value else 0,
      if sendEnd.Some? then sendEnd.value else 0,
      if acceptStart.Some? then acceptStart.value else 0,
      if acceptEnd.Some? then acceptEnd.value else 0));
  }

  /** The brace-counting scan: from just after an opening brace to just
    * after the brace that closes it, or None when NUL comes first. */
  method ScanObject(json: string, objStart: nat) returns (objEnd: Option<nat>)
    requires objStart < |json|
    ensures objEnd == BraceEnd(json, objStart + 1, 1)
  {
    var braceCount := 1;
    var pos := objStart + 1;
    while At(json, pos) != '\0' && braceCount > 0
      invariant objStart < pos <= |json| && braceCount >= 0
      invariant braceCount > 0 ==> BraceEnd(json, pos, braceCount) == BraceEnd(json, objStart + 1, 1)
      invariant braceCount == 0 ==> BraceEnd(json, objStart + 1, 1) == Some(pos)
      decreases |json| - pos
    {
      braceCount := braceCount + BraceDelta(At(json, pos));
      pos := pos + 1;
    }
    if braceCount != 0 {
      return None;
    }
    return Some(pos);
  }

  /** One round of the object loop up to the copy of the object text:
    * blanks, the closing bracket or (after the first key) a comma, blanks,
    * the opening brace, the brace scan and the size check. */
  method ReadStep(json: string, pos: nat, first: bool) returns (r: Step)
    requires pos <= |json|
    ensures r == NextStep(json, pos, first)
  {
    var p := SkipWhitespace(json, pos);
    if At(json, p) == ']' {
      return Close;
    }
    if !first {
      if At(json, p) != ',' {
        return Bad;
      }
      p := SkipWhitespace(json, p + 1);
    }
    if At(json, p) != '{' {
      return Bad;
    }
    var objStart := p;
    var objEnd := ScanObject(json, objStart);
    if objEnd.None? {
      return Bad;
    }
    var objLen := objEnd.value - objStart;
    if objLen >= OBJ_BUF_SIZE {
      return Bad;
    }
    return Object(json[objStart..objEnd.value], objEnd.value);
  }

  /** parse_keys_json: fills keys[0..count) and returns count, or -1. */
  method ParseKeysJson(json: string, keys: array<KeyConfig>, maxKeys: int) returns (count: int)
    requires maxKeys <= keys.Length
    modifies keys
    ensures ParseKeys(json, maxKeys).None? <==> count == -1
    ensures ParseKeys(json, maxKeys).Some? ==>
      0 <= count <= keys.Length && keys[..count] == ParseKeys(json, maxKeys).value
  {
    var pos := SkipWhitespace(json, 0);
    if At(json, pos) != '[' {
      return -1;
    }
    ghost var objects := ObjectsFrom(json, pos + 1, 0, maxKeys);
    assert ParseKeys(json, maxKeys) == if objects.None? then None else Collect(FieldsOf(objects.value));
    count := ReadKeys(json, pos + 1, keys, maxKeys, objects);
  }

  /** The object loop of parse_keys_json, from just after the '['. */
  method ReadKeys(json: string, start: nat, keys: array<KeyConfig>, maxKeys: int, ghost objects: Option<seq<string>>)
    returns (count: int)
    requires start <= |json| && maxKeys <= keys.Length
    requires objects == ObjectsFrom(json, start, 0, maxKeys)
    modifies keys
    ensures objects.None? || Collect(FieldsOf(objects.value)).None? <==> count == -1
    ensures objects.Some? && Collect(FieldsOf(objects.value)).Some? ==>
      0 <= count <= keys.Length && keys[..count] == Collect(FieldsOf(objects.value)).value
  {
    count := 0;
    var pos := start;
    ghost var texts: seq<string> := [];
    PrependNothing(ObjectsFrom(json, pos, count, maxKeys));
    while count < maxKeys
      invariant 0 <= count <= keys.Length && pos <= |json| && count == |texts|
      invariant objects == Prepend(texts, ObjectsFrom(json, pos, count, maxKeys))
      invariant Collect(FieldsOf(texts)) == Some(keys[..count])
      decreases |json| - pos
    {
      var step, key := ReadObjectKey(json, pos, count, maxKeys, objects, texts);
      if step.Close? {
        break;
      }
      if step.Bad? || key.None? {
        return -1;
      }
      ghost var acc := keys[..count];
      keys[count] := key.value;
      assert keys[..count + 1] == acc + [key.value];
      texts := texts + [step.text];
      count := count + 1;
      pos := step.next;
    }
    PrependNothing(Some(texts));
  }

  /** One round of the object loop: the next object and the key it holds.
    * Reports what the round means for the whole list of objects. */
  method ReadObjectKey(json: string, pos: nat, count: nat, maxKeys: int,
                       ghost objects: Option<seq<string>>, ghost texts: seq<string>)
    returns (step: Step, key: Option<KeyConfig>)
    requires pos <= |json| && count < maxKeys && count == |texts|
    requires objects == Prepend(texts, ObjectsFrom(json, pos, count, maxKeys))
    requires Collect(FieldsOf(texts)).Some?
    ensures step.Close? ==> ObjectsFrom(json, pos, count, maxKeys) == Some([])
    ensures step.Bad? ==> objects.None?
    ensures step.Object? && key.None? ==> objects.None? || Collect(FieldsOf(objects.value)).None?
    ensures step.Object? && key.Some? ==>
      pos < step.next <= |json| &&
      objects == Prepend(texts + [step.text], ObjectsFrom(json, step.next, count + 1, maxKeys)) &&
      Collect(FieldsOf(texts + [step.text])) == Some(Collect(FieldsOf(texts)).value + [key.value])
  {
    step := ReadStep(json, pos, count == 0);
    key := None;
    if step.Object? {
      key := ReadKeyFields(step.text);
      AdvanceObjects(json, pos, count, maxKeys, objects, texts);
      if key.None? {
        if objects.Some? {
          FieldsOfIndex(objects.value, count);
        }
      } else {
        assert (texts + [step.text])[..count] == texts;
        CollectSnoc(FieldsOf(texts), key);
      }
    }
  }

  /** One object more is read from the array. */
  lemma AdvanceObjects(s: string, pos: nat, count: nat, maxKeys: int, objects: Option<seq<string>>, texts: seq<string>)
    requires pos <= |s| && count < maxKeys && NextStep(s, pos, count == 0).Object?
    requires objects == Prepend(texts, ObjectsFrom(s, pos, count, maxKeys))
    ensures var step := NextStep(s, pos, count == 0);
      objects == Prepend(texts + [step.text], ObjectsFrom(s, step.next, count + 1, maxKeys))
      && (objects.Some? ==> |texts| < |objects.value| && objects.value[|texts|] == step.text)
  {
    var step := NextStep(s, pos, count == 0);
    match ObjectsFrom(s, step.next, count + 1, maxKeys)
    case None =>
    case Some(rest) =>
      assert texts + ([step.text] + rest) == (texts + [step.text]) + rest;
  }

  /** Collecting one record more appends its key. */
  lemma CollectSnoc(parsed: seq<Option<KeyConfig>>, x: Option<KeyConfig>)
    requires Collect(parsed).Some? && x.Some?
    ensures Collect(parsed + [x]) == Some(Collect(parsed).value + [x.value])
  {
    var ks := Collect(parsed).value + [x.value];
    var p := parsed + [x];
    assert forall k :: 0 <= k < |p| ==> p[k] == Some(ks[k]) by {
      forall k | 0 <= k < |p| ensures p[k] == Some(ks[k]) {
        if k < |parsed| {
          assert p[k] == parsed[k];
        }
      }
    }
    var r := Collect(p);
    assert r.Some?;
    assert forall k :: 0 <= k < |p| ==> r.value[k] == ks[k] by {
      forall k | 0 <= k < |p| ensures r.value[k] == ks[k] {
        assert Some(r.value[k]) == p[k];
      }
    }
    assert r.value == ks;
  }

  /** The record of object j is what its text describes. */
  lemma {:induction false} FieldsOfIndex(texts: seq<string>, j: nat)
    requires j < |texts|
    ensures FieldsOf(texts)[j] == KeyFields(texts[j])
  {
    if j < |texts| - 1 {
      FieldsOfIndex(texts[..|texts| - 1], j);
    }
  }

  /** The records of two runs of objects are the records of each run. */
  lemma {:induction false} FieldsOfAppend(a: seq<string>, b: seq<string>)
    ensures FieldsOf(a + b) == FieldsOf(a) + FieldsOf(b)
  {
    if b == [] {
      assert a + b == a;
    } else {
      assert (a + b)[..|a + b| - 1] == a + b[..|b| - 1];
      FieldsOfAppend(a, b[..|b| - 1]);
    }
  }

  // ---------------------------------------------------------------------
  // Properties
  // ---------------------------------------------------------------------

  function Min(a: int, b: int): int { if a < b then a else b }

  /** Lowering the key limit only cuts the list of objects: objects past
    * the limit are never looked at. */
  lemma {:induction false} ObjectsCap(s: string, pos: nat, count: nat, m: int, n: int)
    requires pos <= |s| && count <= m <= n
    requires ObjectsFrom(s, pos, count, n).Some?
    ensures ObjectsFrom(s, pos, count, m) == Some(ObjectsFrom(s, pos, count, n).value[..Min(m - count, |ObjectsFrom(s, pos, count, n).value|)])
    decreases |s| - pos
  {
    var ts := ObjectsFrom(s, pos, count, n).value;
    if count == m {
      assert ts[..Min(m - count, |ts|)] == [];
    } else {
      match NextStep(s, pos, count == 0)
      case Close =>
      case Bad =>
      case Object(text, e) =>
        ObjectsCap(s, e, count + 1, m, n);
        ObjectsStep(s, pos, count, m, text, e);
        ObjectsStep(s, pos, count, n, text, e);
        TakeCons(text, ObjectsFrom(s, e, count + 1, n).value, m - count);
    }
  }

  lemma ObjectsStep(s: string, pos: nat, count: nat, maxKeys: int, text: string, e: nat)
    requires pos <= |s| && count < maxKeys && NextStep(s, pos, count == 0) == Object(text, e)
    ensures ObjectsFrom(s, pos, count, maxKeys) == Prepend([text], ObjectsFrom(s, e, count + 1, maxKeys))
  {
  }

  lemma TakeCons(x: string, rest: seq<string>, k: int)
    requires k >= 1
    ensures ([x] + rest)[..Min(k, |[x] + rest|)] == [x] + rest[..Min(k - 1, |rest|)]
  {
  }

  /** The keys of a prefix of the records are the prefix of the keys. */
  lemma CollectPrefix(parsed: seq<Option<KeyConfig>>, j: nat)
    requires j <= |parsed| && Collect(parsed).Some?
    ensures Collect(parsed[..j]) == Some(Collect(parsed).value[..j])
  {
    var ks := Collect(parsed).value;
    var p := parsed[..j];
    assert forall k :: 0 <= k < j ==> p[k] == Some(ks[k]) by {
      forall k | 0 <= k < j ensures p[k] == Some(ks[k]) {
        assert p[k] == parsed[k];
      }
    }
    var r := Collect(p);
    assert r.Some?;
    assert forall k :: 0 <= k < j ==> r.value[k] == ks[..j][k] by {
      forall k | 0 <= k < j ensures r.value[k] == ks[..j][k] {
        assert Some(r.value[k]) == p[k];
      }
    }
    assert r.value == ks[..j];
  }

  /** Lowering the key limit only cuts the parsed list. */
  lemma ParseKeysCap(s: string, m: int, n: int)
    requires 0 <= m <= n && ParseKeys(s, n).Some?
    ensures ParseKeys(s, m) == Some(ParseKeys(s, n).value[..Min(m, |ParseKeys(s, n).value|)])
  {
    var p := SkipWs(s, 0);
    var ts := ObjectsFrom(s, p + 1, 0, n).value;
    ObjectsCap(s, p + 1, 0, m, n);
    var j := Min(m, |ts|);
    assert ts == ts[..j] + ts[j..];
    FieldsOfAppend(ts[..j], ts[j..]);
    assert FieldsOf(ts[..j]) == FieldsOf(ts)[..j];
    CollectPrefix(FieldsOf(ts), j);
  }

  /** Every key parsed fits the C buffers it is copied into. */
  lemma ParseKeysFit(s: string, maxKeys: int)
    requires ParseKeys(s, maxKeys).Some?
    ensures forall k :: 0 <= k < |ParseKeys(s, maxKeys).value| ==> FitsBuffers(ParseKeys(s, maxKeys).value[k])
  {
    var ts := ObjectsFrom(s, SkipWs(s, 0) + 1, 0, maxKeys).value;
    var ks := ParseKeys(s, maxKeys).value;
    forall k | 0 <= k < |ks| ensures FitsBuffers(ks[k]) {
      FieldsOfIndex(ts, k);
    }
  }

  /** Once a key has been read, an object that is not preceded by a comma
    * fails the whole parse. */
  lemma CommaRequired(s: string, pos: nat, count: nat, maxKeys: int)
    requires pos <= |s| && 0 < count < maxKeys
    requires At(s, SkipWs(s, pos)) == '{'
    ensures ObjectsFrom(s, pos, count, maxKeys) == None
  {
  }

  /** An object without keyId, algorithm or password fails the whole parse. */
  lemma MissingFieldFails(texts: seq<string>, j: nat)
    requires j < |texts|
    requires IntValue(texts[j], "keyId").None? || StringValue(texts[j], "algorithm", MAX_ALG_NAME).None?
      || StringValue(texts[j], "password", MAX_PASSWORD_LEN).None?
    ensures Collect(FieldsOf(texts)) == None
  {
    FieldsOfIndex(texts, j);
  }

  /** Absent lifetime fields read as 0 ("no bound"). */
  lemma AbsentTimesAreZero(obj: string)
    requires KeyFields(obj).Some?
    requires Find(obj, Quoted("sendStart")).None? && Find(obj, Quoted("sendEnd")).None?
    requires Find(obj, Quoted("acceptStart")).None? && Find(obj, Quoted("acceptEnd")).None?
    ensures KeyFields(obj).value.sendStart == 0 && KeyFields(obj).value.sendEnd == 0
    ensures KeyFields(obj).value.acceptStart == 0 && KeyFields(obj).value.acceptEnd == 0
  {
  }
}
