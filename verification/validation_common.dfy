/** src/utils/validationCommon.js: the form checks shared by the tool
  * pages -- dotted IPv4 addresses, prefix lengths, ports, AS numbers,
  * plain numbers -- and the check of hexadecimal packet text. */
module ValidationCommon {
  import opened Base
  import opened CommonUtils

  // ---------------------------------------------------------------------
  // REGEX.number and the range checks built on it
  // ---------------------------------------------------------------------

  /** `/^\d+$/`: one or more ASCII decimal digits and nothing else. */
  predicate IsNumber(value: string)
  {
    |value| > 0 && AllDigits(value)
  }

  /** `Number(value)` of a digit string. The range checks below compare it
    * with bounds far below 2^53, where a double is exact, so the exact
    * value decides them as it decides the double. */
  function NumberValue(value: string): nat
    requires IsNumber(value)
  {
    DigitsValue(value)
  }

  predicate IsValidIpv4Mask(value: string)
  {
    IsNumber(value) && 1 <= NumberValue(value) <= 32
  }

  predicate IsValidIpv6Mask(value: string)
  {
    IsNumber(value) && 1 <= NumberValue(value) <= 128
  }

  predicate IsValidPort(value: string)
  {
    IsNumber(value) && 1024 <= NumberValue(value) <= 65535
  }

  predicate IsAsn(value: string)
  {
    IsNumber(value) && 1 <= NumberValue(value) <= 4294967295
  }

  /** Every number printed in decimal passes REGEX.number, and each range
    * check accepts the printed number exactly when it lies in its range;
    * in particular 0 is never a prefix length, a port or an AS number. */
  lemma RangeChecksOfDecimal(n: nat)
    ensures IsNumber(Decimal(n))
    ensures IsValidIpv4Mask(Decimal(n)) <==> 1 <= n <= 32
    ensures IsValidIpv6Mask(Decimal(n)) <==> 1 <= n <= 128
    ensures IsValidPort(Decimal(n)) <==> 1024 <= n <= 65535
    ensures IsAsn(Decimal(n)) <==> 1 <= n <= 4294967295
  {
    DecimalValue(n);
  }

  /** Leading zeros change nothing: "0080" is a number with the value of
    * "80", and every range check treats the two alike. */
  lemma LeadingZero(value: string)
    requires IsNumber(value)
    ensures IsNumber("0" + value) && NumberValue("0" + value) == NumberValue(value)
    ensures IsValidIpv4Mask("0" + value) == IsValidIpv4Mask(value)
    ensures IsValidIpv6Mask("0" + value) == IsValidIpv6Mask(value)
    ensures IsValidPort("0" + value) == IsValidPort(value)
    ensures IsAsn("0" + value) == IsAsn(value)
  {
    ZeroPrefixValue(value);
  }

  lemma {:induction false} ZeroPrefixValue(s: string)
    requires AllDigits(s)
    ensures AllDigits("0" + s) && DigitsValue("0" + s) == DigitsValue(s)
  {
    var z := "0" + s;
    if s == [] {
      assert z[..0] == [];
    } else {
      ZeroPrefixValue(s[..|s| - 1]);
      assert z[..|z| - 1] == "0" + s[..|s| - 1];
    }
  }

  // ---------------------------------------------------------------------
  // REGEX.ipv4
  // ---------------------------------------------------------------------

  /** The value of one decimal digit character. */
  function D(c: char): int { c as int - '0' as int }

  /** One octet of REGEX.ipv4, alternative by alternative:
    * `25[0-5]`, `2[0-4][0-9]`, `[01]?[0-9][0-9]?`. */
  predicate OctetPattern(p: string)
  {
    (|p| == 3 && p[0] == '2' && p[1] == '5' && '0' <= p[2] <= '5')
    || (|p| == 3 && p[0] == '2' && '0' <= p[1] <= '4' && IsDigit(p[2]))
    || (|p| == 1 && IsDigit(p[0]))
    || (|p| == 2 && IsDigit(p[0]) && IsDigit(p[1]))
    || (|p| == 2 && (p[0] == '0' || p[0] == '1') && IsDigit(p[1]))
    || (|p| == 3 && (p[0] == '0' || p[0] == '1') && IsDigit(p[1]) && IsDigit(p[2]))
  }

  /** isValidIpv4: `(octet\.){3}octet` anchored at both ends. No octet
    * contains a '.', so the dots split the text into exactly four pieces
    * and the text matches exactly when each piece matches an octet. */
  predicate IsValidIpv4(value: string)
  {
    var parts := Split(value, '.');
    |parts| == 4 && forall k :: 0 <= k < 4 ==> OctetPattern(parts[k])
  }

  lemma ThreeDigits(p: string)
    requires |p| == 3 && AllDigits(p)
    ensures DigitsValue(p) == 100 * D(p[0]) + 10 * D(p[1]) + D(p[2])
  {
    assert p[..2][..1] == p[..1] && p[..1][..0] == [];
    assert DigitsValue(p[..1]) == D(p[0]);
    assert DigitsValue(p[..2]) == 10 * D(p[0]) + D(p[1]);
  }

  lemma TwoDigits(p: string)
    requires |p| == 2 && AllDigits(p)
    ensures DigitsValue(p) == 10 * D(p[0]) + D(p[1])
  {
    assert p[..1][..0] == [];
    assert DigitsValue(p[..1]) == D(p[0]);
  }

  lemma OneDigit(p: string)
    requires |p| == 1 && AllDigits(p)
    ensures DigitsValue(p) == D(p[0])
  {
    assert p[..0] == [];
  }

  /** An octet of the pattern is one to three digits worth at most 255;
    * leading zeros ("001") are allowed. */
  lemma OctetPatternValue(p: string)
    ensures OctetPattern(p) <==> 1 <= |p| <= 3 && AllDigits(p) && DigitsValue(p) <= 255
  {
    if 1 <= |p| <= 3 && AllDigits(p) {
      if |p| == 1 {
        OneDigit(p);
      } else if |p| == 2 {
        TwoDigits(p);
      } else {
        ThreeDigits(p);
      }
    }
  }

  /** isValidIpv4 accepts exactly four dot-separated octets, each written
    * with one to three digits and worth 0..255. */
  lemma Ipv4Octets(value: string)
    ensures IsValidIpv4(value) <==>
      var parts := Split(value, '.');
      |parts| == 4 && forall k :: 0 <= k < 4 ==>
        1 <= |parts[k]| <= 3 && AllDigits(parts[k]) && DigitsValue(parts[k]) <= 255
  {
    var parts := Split(value, '.');
    forall k | 0 <= k < |parts| {
      OctetPatternValue(parts[k]);
    }
  }

  /** The decimal texts of some octets. */
  function OctetTexts(octets: seq<byte>): (r: seq<string>)
    ensures |r| == |octets|
    ensures forall k :: 0 <= k < |r| ==> r[k] == Decimal(octets[k])
  {
    seq(|octets|, k requires 0 <= k < |octets| => Decimal(octets[k]))
  }

  lemma {:induction false} DottedIsJoin(octets: seq<byte>)
    requires |octets| >= 1
    ensures DottedDecimal(octets) == Join(OctetTexts(octets), '.')
  {
    if |octets| > 1 {
      DottedIsJoin(octets[1..]);
      assert OctetTexts(octets)[1..] == OctetTexts(octets[1..]);
    }
  }

  /** Decimal text of a number below 1000 has at most three digits. */
  lemma ShortDecimal(n: nat)
    requires n < 1000
    ensures |Decimal(n)| <= 3
  {
    if n >= 10 {
      assert |Decimal(n)| == |Decimal(n / 10)| + 1;
      if n / 10 >= 10 {
        assert |Decimal(n / 10)| == |Decimal(n / 100)| + 1;
      }
    }
  }

  /** Every address printed as four octets passes isValidIpv4. */
  lemma DottedIsValid(octets: seq<byte>)
    requires |octets| == 4
    ensures IsValidIpv4(DottedDecimal(octets))
  {
    var texts := OctetTexts(octets);
    DottedIsJoin(octets);
    forall k | 0 <= k < 4
      ensures '.' !in texts[k] && OctetPattern(texts[k])
    {
      DecimalValue(octets[k]);
      ShortDecimal(octets[k]);
      OctetPatternValue(texts[k]);
    }
    JoinSplit(texts, '.');
  }

  // ---------------------------------------------------------------------
  // validatePacketData
  // ---------------------------------------------------------------------

  /** `{ status, message }`: the message of an error names the 1-based
    * line and the offending token. */
  datatype PacketCheck = Success | InvalidNumber(lineNumber: int, number: string)

  /** `/^[0-9A-Fa-f]{2}$/` */
  predicate IsHexPair(t: string)
  {
    |t| == 2 && IsHexDigit(t[0]) && IsHexDigit(t[1])
  }

  /** The leading run of characters that are not white space. */
  function WordAt(s: string): (w: string)
    ensures |w| <= |s| && w == s[..|w|]
    ensures forall k :: 0 <= k < |w| ==> !IsSpace(w[k])
    ensures |w| < |s| ==> IsSpace(s[|w|])
  {
    if s == [] || IsSpace(s[0]) then [] else [s[0]] + WordAt(s[1..])
  }

  /** `s.split(/\s+/).filter(num => num !== '')`: the maximal runs of
    * characters that are not white space, in order. */
  function Tokens(s: string): (r: seq<string>)
    decreases |s|
  {
    if s == [] then []
    else if IsSpace(s[0]) then Tokens(s[1..])
    else var w := WordAt(s); [w] + Tokens(s[|w|..])
  }

  /** `s.trim()`: white space removed from both ends (JavaScript trims the
    * same characters `\s` matches). */
  function Trim(s: string): string
  {
    TrimEnd(TrimStart(s))
  }

  function TrimStart(s: string): string
  {
    if s != [] && IsSpace(s[0]) then TrimStart(s[1..]) else s
  }

  function TrimEnd(s: string): string
  {
    if s != [] && IsSpace(s[|s| - 1]) then TrimEnd(s[..|s| - 1]) else s
  }

  /** A white-space character at the end does not lengthen the last word. */
  lemma {:induction false} WordAtSpace(s: string, c: char)
    requires IsSpace(c)
    ensures WordAt(s + [c]) == WordAt(s)
  {
    if s != [] && !IsSpace(s[0]) {
      WordAtSpace(s[1..], c);
      assert (s + [c])[1..] == s[1..] + [c];
    }
  }

  lemma {:induction false} TokensSpace(s: string, c: char)
    requires IsSpace(c)
    ensures Tokens(s + [c]) == Tokens(s)
    decreases |s|
  {
    var t := s + [c];
    if s == [] {
      assert Tokens(t) == Tokens(t[1..]);
      assert t[1..] == [];
    } else if IsSpace(s[0]) {
      assert t[1..] == s[1..] + [c];
      TokensSpace(s[1..], c);
    } else {
      var w := WordAt(s);
      WordAtSpace(s, c);
      assert t[|w|..] == s[|w|..] + [c];
      TokensSpace(s[|w|..], c);
    }
  }

  /** Trimming a line changes none of its tokens. */
  lemma TrimKeepsTokens(s: string)
    ensures Tokens(Trim(s)) == Tokens(s)
  {
    TrimStartTokens(s);
    TrimEndTokens(TrimStart(s));
  }

  lemma {:induction false} TrimStartTokens(s: string)
    ensures Tokens(TrimStart(s)) == Tokens(s)
  {
    if s != [] && IsSpace(s[0]) {
      TrimStartTokens(s[1..]);
    }
  }

  lemma {:induction false} TrimEndTokens(s: string)
    ensures Tokens(TrimEnd(s)) == Tokens(s)
  {
    if s != [] && IsSpace(s[|s| - 1]) {
      var p := s[..|s| - 1];
      TrimEndTokens(p);
      TokensSpace(p, s[|s| - 1]);
      assert p + [s[|s| - 1]] == s;
    }
  }

  /** Words that hold no white space, joined by single spaces, are the
    * tokens of the joined text. */
  lemma {:induction false} TokensOfJoin(words: seq<string>)
    requires |words| >= 1
    requires forall k :: 0 <= k < |words| ==> |words[k]| > 0 && forall j :: 0 <= j < |words[k]| ==> !IsSpace(words[k][j])
    ensures Tokens(Join(words, ' ')) == words
  {
    var w := words[0];
    if |words| == 1 {
      WordWhole(w, []);
      assert w + [] == w;
      assert w[|w|..] == [];
    } else {
      var rest := Join(words[1..], ' ');
      var s := w + [' '] + rest;
      TokensOfJoin(words[1..]);
      WordWhole(w, [' '] + rest);
      assert s == w + ([' '] + rest);
      assert s[|w|..] == [' '] + rest;
      assert ([' '] + rest)[1..] == rest;
      assert IsSpace(' ');
    }
  }

  /** A word followed by white space (or by nothing) is read whole. */
  lemma {:induction false} WordWhole(w: string, tail: string)
    requires forall j :: 0 <= j < |w| ==> !IsSpace(w[j])
    requires tail == [] || IsSpace(tail[0])
    ensures WordAt(w + tail) == w
  {
    if w != [] {
      WordWhole(w[1..], tail);
      assert (w + tail)[1..] == w[1..] + tail;
    } else {
      assert w + tail == tail;
    }
  }

  /** A line whose tokens are all two hexadecimal digits. */
  predicate LineOk(line: string)
  {
    var ts := Tokens(line);
    forall k :: 0 <= k < |ts| ==> IsHexPair(ts[k])
  }

  /** The lines before line n (0-based) are all good. */
  predicate LinesOk(lines: seq<string>, n: int)
    requires n <= |lines|
  {
    forall i :: 0 <= i < n ==> LineOk(lines[i])
  }

  /** number is the first token of ts that is not two hexadecimal digits. */
  predicate FirstBadToken(ts: seq<string>, number: string)
  {
    exists k :: 0 <= k < |ts| && ts[k] == number && !IsHexPair(number)
      && forall j :: 0 <= j < k ==> IsHexPair(ts[j])
  }

  /** validatePacketData: the text is cut at '\n'; each line is trimmed,
    * a blank line is skipped, and every token of the others must be two
    * hexadecimal digits. The first token that is not makes the result an
    * error naming its 1-based line. */
  method ValidatePacketData(value: string) returns (r: PacketCheck)
    ensures var lines := Split(value, '\n');
            r.Success? <==> LinesOk(lines, |lines|)
    ensures var lines := Split(value, '\n');
            r.InvalidNumber? ==>
              && 1 <= r.lineNumber <= |lines|
              && LinesOk(lines, r.lineNumber - 1)
              && FirstBadToken(Tokens(lines[r.lineNumber - 1]), r.number)
  {
    var lines := Split(value, '\n');
    for i := 0 to |lines|
      invariant LinesOk(lines, i)
    {
      var line := Trim(lines[i]);
      TrimKeepsTokens(lines[i]);
      if line == "" {
        continue;
      }
      var numbers := Tokens(line);
      for k := 0 to |numbers|
        invariant forall j :: 0 <= j < k ==> IsHexPair(numbers[j])
      {
        if !IsHexPair(numbers[k]) {
          assert numbers == Tokens(lines[i]);
          assert FirstBadToken(numbers, numbers[k]);
          assert !LineOk(lines[i]);
          return InvalidNumber(i + 1, numbers[k]);
        }
      }
    }
    return Success;
  }

  /** Rows of octets written as upper-case hexadecimal pairs, one space
    * between octets and one line per row, pass validatePacketData. */
  lemma FormattedRowValid(row: seq<byte>)
    requires |row| >= 1
    ensures LineOk(Join(RowTexts(row), ' '))
  {
    var texts := RowTexts(row);
    forall k | 0 <= k < |texts|
      ensures |texts[k]| > 0 && forall j :: 0 <= j < |texts[k]| ==> !IsSpace(texts[k][j])
    {
      var h := HexByteUpper(row[k]);
      assert !IsSpace(h[0]) && !IsSpace(h[1]);
    }
    TokensOfJoin(texts);
  }

  function RowTexts(row: seq<byte>): (r: seq<string>)
    ensures |r| == |row|
    ensures forall k :: 0 <= k < |r| ==> r[k] == HexByteUpper(row[k]) && IsHexPair(r[k])
  {
    seq(|row|, k requires 0 <= k < |row| => HexByteUpper(row[k]))
  }
}
