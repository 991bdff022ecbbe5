/** Shared vocabulary of the model: bytes, optional values, big-endian
  * integers as Node's Buffer reads and writes them, the 32-bit wrap of
  * JavaScript's bitwise operators, and decimal and hexadecimal text. */
module Base {

  /** One octet of a Buffer, a C `unsigned char` or a typed-array element. */
  type byte = x: int | 0 <= x < 256

  datatype Option<T> = None | Some(value: T)

  /** A JavaScript call either returns a value or throws. */
  datatype Outcome<T> = Returned(value: T) | Threw

  const TWO_8: int := 0x100
  const TWO_16: int := 0x1_0000
  const TWO_24: int := 0x100_0000
  const TWO_31: int := 0x8000_0000
  const TWO_32: int := 0x1_0000_0000

  // ---------------------------------------------------------------------
  // Big-endian integers (Buffer.readUInt16BE / readUInt32BE)
  // ---------------------------------------------------------------------

  /** The unsigned 16-bit big-endian value at offset i. */
  function BE16(b: seq<byte>, i: int): (r: int)
    requires 0 <= i && i + 2 <= |b|
    ensures 0 <= r < TWO_16
  {
    b[i] * TWO_8 + b[i + 1]
  }

  /** The unsigned 32-bit big-endian value at offset i. */
  function BE32(b: seq<byte>, i: int): (r: int)
    requires 0 <= i && i + 4 <= |b|
    ensures 0 <= r < TWO_32
    ensures r == BE16(b, i) * TWO_16 + BE16(b, i + 2)
  {
    ((b[i] * TWO_8 + b[i + 1]) * TWO_8 + b[i + 2]) * TWO_8 + b[i + 3]
  }

  /** JavaScript's ToInt32: the two's-complement reading of the low 32 bits,
    * which is what every bitwise operator applies to its operands. */
  function ToInt32(x: int): (r: int)
    ensures -TWO_31 <= r < TWO_31
    ensures (r - x) % TWO_32 == 0
  {
    var u := x % TWO_32;
    if u >= TWO_31 then u - TWO_32 else u
  }

  /** Integers that agree modulo 2^32 have the same ToInt32. */
  lemma ToInt32Congruent(x: int, y: int)
    requires (x - y) % TWO_32 == 0
    ensures ToInt32(x) == ToInt32(y)
  {
    assert x % TWO_32 == y % TWO_32;
  }

  /** `(v << k) | d` for a digit d below 2^k = radix: the bitwise operators
    * reduce v first, which changes nothing modulo 2^32, and the digit lands
    * in the cleared low bits, so the result is ToInt32(v * radix + d). */
  lemma ShiftInToInt32(v: int, radix: int, d: int)
    ensures ToInt32(ToInt32(v) * radix + d) == ToInt32(v * radix + d)
  {
    var k := (ToInt32(v) - v) / TWO_32;
    assert ToInt32(v) == v + k * TWO_32;
    assert ToInt32(v) * radix + d == v * radix + d + (k * radix) * TWO_32;
    ToInt32Congruent(ToInt32(v) * radix + d, v * radix + d);
  }

  // ---------------------------------------------------------------------
  // Decimal text (Number.prototype.toString for non-negative integers)
  // ---------------------------------------------------------------------

  predicate IsDigit(c: char) { '0' <= c <= '9' }

  predicate AllDigits(s: string) { forall k :: 0 <= k < |s| ==> IsDigit(s[k]) }

  function DigitChar(d: int): (c: char)
    requires 0 <= d < 10
    ensures IsDigit(c) && c as int - '0' as int == d
  {
    ('0' as int + d) as char
  }

  /** The value of a string of decimal digits, most significant first. */
  function DigitsValue(s: string): nat
    requires AllDigits(s)
  {
    if s == [] then 0 else DigitsValue(s[..|s| - 1]) * 10 + (s[|s| - 1] as int - '0' as int)
  }

  /** The shortest decimal representation of n, as JavaScript prints it. */
  function Decimal(n: nat): (s: string)
    ensures |s| > 0 && AllDigits(s)
  {
    if n < 10 then [DigitChar(n)] else Decimal(n / 10) + [DigitChar(n % 10)]
  }

  lemma {:induction false} DecimalValue(n: nat)
    ensures DigitsValue(Decimal(n)) == n
  {
    if n >= 10 {
      DecimalValue(n / 10);
      var s := Decimal(n);
      assert s[..|s| - 1] == Decimal(n / 10);
    }
  }

  /** Decimal text of an integer that may be negative (String(n)). */
  function IntText(n: int): string
  {
    if n < 0 then "-" + Decimal(-n) else Decimal(n)
  }

  /** Octets joined by '.', as `[...].join('.')` prints them. */
  function DottedDecimal(parts: seq<int>): string
  {
    if parts == [] then ""
    else if |parts| == 1 then IntText(parts[0])
    else IntText(parts[0]) + "." + DottedDecimal(parts[1..])
  }

  // ---------------------------------------------------------------------
  // String.prototype.split with a one-character separator
  // ---------------------------------------------------------------------

  /** The pieces of s between the separators: k + 1 of them for k
    * separators, empty pieces included. */
  function Split(s: string, sep: char): (r: seq<string>)
    ensures |r| >= 1
  {
    if s == [] then [""]
    else
      var rest := Split(s[1..], sep);
      if s[0] == sep then [""] + rest else [[s[0]] + rest[0]] + rest[1..]
  }

  /** `parts.join(sep)` */
  function Join(parts: seq<string>, sep: char): (s: string)
    requires |parts| >= 1
  {
    if |parts| == 1 then parts[0] else parts[0] + [sep] + Join(parts[1..], sep)
  }

  /** Joining the pieces gives back the string. */
  lemma {:induction false} SplitJoin(s: string, sep: char)
    ensures Join(Split(s, sep), sep) == s
  {
    if s != [] {
      var rest := Split(s[1..], sep);
      SplitJoin(s[1..], sep);
      if s[0] == sep {
        assert Split(s, sep)[1..] == rest;
      } else {
        var r := Split(s, sep);
        if |rest| == 1 {
          assert r == [[s[0]] + rest[0]];
        } else {
          assert r[1..] == rest[1..];
          assert Join(r, sep) == [s[0]] + rest[0] + [sep] + Join(rest[1..], sep);
        }
      }
    }
  }

  /** Splitting joined pieces that hold no separator gives the pieces. */
  lemma {:induction false} JoinSplit(parts: seq<string>, sep: char)
    requires |parts| >= 1 && forall k :: 0 <= k < |parts| ==> sep !in parts[k]
    ensures Split(Join(parts, sep), sep) == parts
  {
    if |parts| == 1 {
      SplitPlain(parts[0], sep);
    } else {
      JoinSplit(parts[1..], sep);
      var y := Join(parts[1..], sep);
      SplitPrefix(parts[0], [sep] + y, sep);
      assert parts[0] + [sep] + y == parts[0] + ([sep] + y);
      assert ([sep] + y)[1..] == y;
      assert Split([sep] + y, sep) == [""] + parts[1..];
      assert parts[0] + "" == parts[0];
      assert parts == [parts[0]] + parts[1..];
    }
  }

  /** A string without the separator is one piece. */
  lemma {:induction false} SplitPlain(x: string, sep: char)
    requires sep !in x
    ensures Split(x, sep) == [x]
  {
    if x != [] {
      SplitPlain(x[1..], sep);
      assert [x[0]] + x[1..] == x;
    }
  }

  /** A prefix without the separator joins the first piece of the rest. */
  lemma {:induction false} SplitPrefix(x: string, y: string, sep: char)
    requires sep !in x
    ensures var r := Split(y, sep);
            Split(x + y, sep) == [x + r[0]] + r[1..]
  {
    if x != [] {
      var r := Split(y, sep);
      SplitPrefix(x[1..], y, sep);
      assert (x + y)[1..] == x[1..] + y;
      var rest := Split(x[1..] + y, sep);
      assert rest == [x[1..] + r[0]] + r[1..];
      assert x[0] != sep && (x + y)[0] == x[0];
      assert Split(x + y, sep) == [[x[0]] + rest[0]] + rest[1..];
      assert [x[0]] + (x[1..] + r[0]) == x + r[0];
    } else {
      var r := Split(y, sep);
      assert x + y == y && x + r[0] == r[0];
      assert r == [r[0]] + r[1..];
    }
  }

  /** Every piece is made of characters of s other than the separator. */
  lemma {:induction false} SplitPieces(s: string, sep: char)
    ensures forall k, c :: 0 <= k < |Split(s, sep)| && c in Split(s, sep)[k] ==> c in s && c != sep
    ensures forall k :: 0 <= k < |Split(s, sep)| ==> sep !in Split(s, sep)[k]
  {
    if s != [] {
      SplitPieces(s[1..], sep);
      var rest := Split(s[1..], sep);
      var r := Split(s, sep);
      assert s == [s[0]] + s[1..];
      forall k, c | 0 <= k < |r| && c in r[k]
        ensures c in s && c != sep
      {
        if s[0] == sep {
          assert r == [""] + rest;
          assert r[k] == rest[k - 1];
          assert c in s[1..];
        } else if k == 0 {
          assert r[0] == [s[0]] + rest[0];
          if c != s[0] {
            assert c in rest[0];
            assert c in s[1..];
          }
        } else {
          assert r[k] == rest[k];
          assert c in s[1..];
        }
      }
    }
  }

  /** Splitting at a separator between two strings splits each of them. */
  lemma {:induction false} SplitAppend(x: string, y: string, sep: char)
    ensures Split(x + [sep] + y, sep) == Split(x, sep) + Split(y, sep)
  {
    var ys := Split(y, sep);
    if x == [] {
      assert x + [sep] + y == [sep] + y;
      SplitCons(sep, y, sep);
    } else {
      var t := x[1..] + [sep] + y;
      assert x + [sep] + y == [x[0]] + t;
      assert x == [x[0]] + x[1..];
      SplitAppend(x[1..], y, sep);
      SplitCons(x[0], t, sep);
      SplitCons(x[0], x[1..], sep);
      SplitConsAppend(x[0], Split(x[1..], sep), ys, sep);
    }
  }

  /** Split on a string with a known first character. */
  lemma SplitCons(c: char, t: string, sep: char)
    ensures Split([c] + t, sep) ==
            if c == sep then [""] + Split(t, sep) else [[c] + Split(t, sep)[0]] + Split(t, sep)[1..]
  {
    assert ([c] + t)[1..] == t;
  }

  lemma SplitConsAppend(c: char, q: seq<string>, ys: seq<string>, sep: char)
    requires |q| >= 1
    ensures (if c == sep then [""] + (q + ys) else [[c] + (q + ys)[0]] + (q + ys)[1..]) ==
            (if c == sep then [""] + q else [[c] + q[0]] + q[1..]) + ys
  {
    assert (q + ys)[0] == q[0] && (q + ys)[1..] == q[1..] + ys;
  }

  /** One more piece joins after one more separator. */
  lemma {:induction false} JoinSnoc(parts: seq<string>, x: string, sep: char)
    requires |parts| >= 1
    ensures Join(parts + [x], sep) == Join(parts, sep) + [sep] + x
  {
    if |parts| > 1 {
      JoinSnoc(parts[1..], x, sep);
      assert (parts + [x])[1..] == parts[1..] + [x];
    }
  }

  // ---------------------------------------------------------------------
  // Hexadecimal text
  // ---------------------------------------------------------------------

  predicate IsHexDigit(c: char)
  {
    ('0' <= c <= '9') || ('a' <= c <= 'f') || ('A' <= c <= 'F')
  }

  function HexValue(c: char): (v: int)
    requires IsHexDigit(c)
    ensures 0 <= v < 16
  {
    if '0' <= c <= '9' then c as int - '0' as int
    else if 'a' <= c <= 'f' then c as int - 'a' as int + 10
    else c as int - 'A' as int + 10
  }

  /** The upper-case hexadecimal digit for 0..15. */
  function UpperHexDigit(d: int): (c: char)
    requires 0 <= d < 16
    ensures IsHexDigit(c) && HexValue(c) == d
    ensures !('a' <= c <= 'z')
  {
    if d < 10 then ('0' as int + d) as char else ('A' as int + d - 10) as char
  }

  /** Two upper-case hexadecimal digits for one octet (zero padded). */
  function HexByteUpper(b: byte): (s: string)
    ensures |s| == 2 && IsHexDigit(s[0]) && IsHexDigit(s[1])
    ensures HexValue(s[0]) * 16 + HexValue(s[1]) == b
  {
    [UpperHexDigit(b / 16), UpperHexDigit(b % 16)]
  }
}
