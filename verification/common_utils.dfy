/** electron/utils/commonUtils.js: flag helpers over JavaScript's bitwise
  * operators and the conversion of hexadecimal text into bytes. */
module CommonUtils {
  import opened Base
  import opened Bits

  // ---------------------------------------------------------------------
  // BIT_SET, BIT_RESET, BIT_TEST
  // ---------------------------------------------------------------------

  /** BIT_SET: `flags | flag`; every bit of the result is set exactly when
    * it is set in flags or in flag. */
  function BitSet(flags: int, flag: int): (r: int)
    ensures forall i :: 0 <= i < 32 ==> Bit(Pattern(r), i) == (Bit(Pattern(flags), i) || Bit(Pattern(flag), i))
  {
    var r := JsOr(flags, flag);
    forall i | 0 <= i < 32
      ensures Bit(Pattern(r), i) == (Bit(Pattern(flags), i) || Bit(Pattern(flag), i))
    {
      OrBit(Pattern(flags), Pattern(flag), i);
    }
    r
  }

  /** BIT_RESET: `flags & ~flag`; the bits of flag are cleared and every
    * other bit of flags is kept. */
  function BitReset(flags: int, flag: int): (r: int)
    ensures forall i :: 0 <= i < 32 ==> Bit(Pattern(r), i) == (Bit(Pattern(flags), i) && !Bit(Pattern(flag), i))
  {
    var r := JsAnd(flags, JsNot(flag));
    Pow2Values();
    forall i | 0 <= i < 32
      ensures Bit(Pattern(r), i) == (Bit(Pattern(flags), i) && !Bit(Pattern(flag), i))
    {
      AndBit(Pattern(flags), Pattern(JsNot(flag)), i);
      ComplementBit(Pattern(flag), 32, i);
    }
    r
  }

  /** BIT_TEST: `(flags & flag) !== 0`; true exactly when flags and flag
    * share a set bit. */
  function BitTest(flags: int, flag: int): (r: bool)
    ensures r <==> exists i :: 0 <= i < 32 && Bit(Pattern(flags), i) && Bit(Pattern(flag), i)
  {
    var c := JsAnd(flags, flag);
    Pow2Values();
    NonZeroBit(Pattern(c), 32);
    PatternOfInt32(0);
    forall i | 0 <= i < 32
      ensures Bit(Pattern(c), i) == (Bit(Pattern(flags), i) && Bit(Pattern(flag), i))
    {
      AndBit(Pattern(flags), Pattern(flag), i);
    }
    c != 0
  }

  /** A flag with some bit set tests true once it has been set. */
  lemma SetThenTest(flags: int, flag: int)
    requires Pattern(flag) != 0
    ensures BitTest(BitSet(flags, flag), flag)
  {
    Pow2Values();
    NonZeroBit(Pattern(flag), 32);
    var i :| 0 <= i < 32 && Bit(Pattern(flag), i);
    assert Bit(Pattern(BitSet(flags, flag)), i);
  }

  /** Setting the same flag twice is the same as setting it once. */
  lemma SetIdempotent(flags: int, flag: int)
    ensures BitSet(BitSet(flags, flag), flag) == BitSet(flags, flag)
  {
    var once := BitSet(flags, flag);
    var twice := BitSet(once, flag);
    Pow2Values();
    BitsEqual(Pattern(twice), Pattern(once), 32);
    assert ToInt32(Pattern(twice)) == ToInt32(Pattern(once));
  }

  /** A flag never tests true right after it has been reset. */
  lemma ResetThenTest(flags: int, flag: int)
    ensures !BitTest(BitReset(flags, flag), flag)
  {
  }

  // ---------------------------------------------------------------------
  // hexStringToBuffer
  // ---------------------------------------------------------------------

  /** The characters JavaScript's `\s` matches. */
  predicate IsSpace(c: char)
  {
    var n := c as int;
    (0x09 <= n <= 0x0D) || n == 0x20 || n == 0xA0 || n == 0x1680 || (0x2000 <= n <= 0x200A)
    || n == 0x2028 || n == 0x2029 || n == 0x202F || n == 0x205F || n == 0x3000 || n == 0xFEFF
  }

  /** `s.replace(/\s/g, '')`: the characters of s that are not white space,
    * in order. */
  function StripSpaces(s: string): (r: string)
    ensures |r| <= |s|
    ensures forall k :: 0 <= k < |r| ==> !IsSpace(r[k])
    ensures (forall k :: 0 <= k < |s| ==> !IsSpace(s[k])) ==> r == s
  {
    if s == [] then []
    else if IsSpace(s[0]) then StripSpaces(s[1..])
    else [s[0]] + StripSpaces(s[1..])
  }

  /** Buffer.from(s, 'hex'): one octet per pair of hexadecimal digits,
    * stopping at the first pair that is not two hexadecimal digits. */
  function HexPairs(s: string): (r: seq<byte>)
    ensures |r| <= |s| / 2
  {
    if |s| < 2 || !IsHexDigit(s[0]) || !IsHexDigit(s[1]) then []
    else [HexValue(s[0]) * 16 + HexValue(s[1])] + HexPairs(s[2..])
  }

  /** Octet k comes from the digits at 2k and 2k + 1. */
  lemma {:induction false} HexPairsAt(s: string, k: int)
    requires 0 <= k < |HexPairs(s)|
    ensures IsHexDigit(s[2 * k]) && IsHexDigit(s[2 * k + 1])
    ensures HexPairs(s)[k] == HexValue(s[2 * k]) * 16 + HexValue(s[2 * k + 1])
  {
    if k > 0 {
      HexPairsAt(s[2..], k - 1);
    }
  }

  /** Text made only of hexadecimal digits, an even number of them, is
    * decoded whole. */
  lemma {:induction false} HexPairsAll(s: string)
    requires |s| % 2 == 0 && forall k :: 0 <= k < |s| ==> IsHexDigit(s[k])
    ensures |HexPairs(s)| == |s| / 2
  {
    if |s| >= 2 {
      HexPairsAll(s[2..]);
    }
  }

  /** hexStringToBuffer: white space removed, a '0' put in front of an odd
    * number of digits, then decoded pair by pair. */
  function HexStringToBuffer(hexString: string): (r: seq<byte>)
    ensures var s := StripSpaces(hexString);
            |r| <= (|s| + 1) / 2
  {
    var s := StripSpaces(hexString);
    var even := if |s| % 2 != 0 then "0" + s else s;
    HexPairs(even)
  }

  /** Upper-case hexadecimal text of some octets, two digits each. */
  function HexText(bytes: seq<byte>): (s: string)
    ensures |s| == 2 * |bytes|
    ensures forall k :: 0 <= k < |s| ==> IsHexDigit(s[k]) && !IsSpace(s[k])
  {
    if bytes == [] then "" else HexByteUpper(bytes[0]) + HexText(bytes[1..])
  }

  /** Hexadecimal text converts back into the octets it was written from. */
  lemma {:induction false} HexRoundTrip(bytes: seq<byte>)
    ensures HexStringToBuffer(HexText(bytes)) == bytes
  {
    var s := HexText(bytes);
    assert StripSpaces(s) == s;
    var r := HexPairs(s);
    HexPairsAll(s);
    forall k | 0 <= k < |bytes|
      ensures r[k] == bytes[k]
    {
      HexTextAt(bytes, k);
      HexPairsAt(s, k);
    }
  }

  lemma {:induction false} HexTextAt(bytes: seq<byte>, k: int)
    requires 0 <= k < |bytes|
    ensures HexText(bytes)[2 * k..2 * k + 2] == HexByteUpper(bytes[k])
  {
    if k > 0 {
      HexTextAt(bytes[1..], k - 1);
      assert HexText(bytes) == HexByteUpper(bytes[0]) + HexText(bytes[1..]);
    }
  }

  /** An odd number of digits reads as if a '0' led them: the first digit
    * alone makes the first octet. */
  lemma OddDigitsPadded(hexString: string)
    requires |hexString| % 2 == 1 && forall k :: 0 <= k < |hexString| ==> IsHexDigit(hexString[k]) && !IsSpace(hexString[k])
    ensures var r := HexStringToBuffer(hexString);
            |r| == (|hexString| + 1) / 2 && r[0] == HexValue(hexString[0])
  {
    var even := "0" + hexString;
    assert StripSpaces(hexString) == hexString;
    HexPairsAll(even);
    HexPairsAt(even, 0);
  }
}
