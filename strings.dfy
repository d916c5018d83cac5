/**
 * Text helpers shared by the model: bytes, Latin-1 and UTF-8 transcoding, decimal
 * formatting, repetition and joining, and a key order used to list a map's keys.
 */
module Strings {

  import opened Wrappers

  /** An 8-bit byte, as held by QByteArray and by Python str and bytearray objects. */
  type byte = x: int | 0 <= x < 256

  /** QString::fromLatin1: one character per byte, with the byte's value as code point. */
  function Latin1Decode(bytes: seq<byte>): (s: string)
    ensures |s| == |bytes|
    ensures forall i :: 0 <= i < |bytes| ==> s[i] as int == bytes[i]
  {
    seq(|bytes|, i requires 0 <= i < |bytes| => bytes[i] as char)
  }

  /** Number of bytes UTF-8 uses for one code point. */
  function Utf8Width(c: char): (n: nat)
    ensures 1 <= n <= 4
  {
    if c as int < 0x80 then 1
    else if c as int < 0x800 then 2
    else if c as int < 0x10000 then 3
    else 4
  }

  /** Number of UTF-16 code units for one code point (QString stores UTF-16). */
  function Utf16Width(c: char): (n: nat)
    ensures n == 1 || n == 2
  {
    if c as int < 0x10000 then 1 else 2
  }

  /** The UTF-8 encoding of one code point. */
  function Utf8Char(c: char): (b: seq<byte>)
    ensures |b| == Utf8Width(c)
  {
    var x := c as int;
    if x < 0x80 then [x]
    else if x < 0x800 then [0xC0 + x / 0x40, 0x80 + x % 0x40]
    else if x < 0x10000 then [0xE0 + x / 0x1000, 0x80 + (x / 0x40) % 0x40, 0x80 + x % 0x40]
    else [0xF0 + x / 0x40000, 0x80 + (x / 0x1000) % 0x40, 0x80 + (x / 0x40) % 0x40, 0x80 + x % 0x40]
  }

  /** QString::toUtf8. */
  function Utf8Encode(s: string): (b: seq<byte>)
    ensures |b| == Utf8Length(s)
  {
    if s == [] then [] else Utf8Char(s[0]) + Utf8Encode(s[1..])
  }

  /** The number of bytes in the UTF-8 encoding of `s`. */
  function Utf8Length(s: string): nat
  {
    if s == [] then 0 else Utf8Width(s[0]) + Utf8Length(s[1..])
  }

  /** QString::length: the number of UTF-16 code units of `s`. */
  function Utf16Length(s: string): nat
  {
    if s == [] then 0 else Utf16Width(s[0]) + Utf16Length(s[1..])
  }

  /**
   * Strict UTF-8 decoding of the first `n` bytes of the encoding of `s`: the characters
   * whose bytes all lie in that prefix, or None when the cut falls inside a character.
   */
  function DecodeUtf8Prefix(s: string, n: nat): (r: Option<string>)
  {
    if n == 0 then Some([])
    else if s == [] || n < Utf8Width(s[0]) then None
    else match DecodeUtf8Prefix(s[1..], n - Utf8Width(s[0]))
      case None => None
      case Some(rest) => Some([s[0]] + rest)
  }

  /** A decimal digit character. */
  function DigitChar(d: nat): char
    requires d < 10
  {
    ['0', '1', '2', '3', '4', '5', '6', '7', '8', '9'][d]
  }

  function Digits(n: nat): (s: string)
    ensures |s| > 0
    ensures forall i :: 0 <= i < |s| ==> '0' <= s[i] <= '9'
  {
    if n < 10 then [DigitChar(n)] else Digits(n / 10) + [DigitChar(n % 10)]
  }

  /** QString::number on an integer: optional minus sign, then decimal digits. */
  function DecimalString(n: int): (s: string)
    ensures |s| > 0
    ensures (n < 0) == (s[0] == '-')
  {
    if n < 0 then "-" + Digits(-n) else Digits(n)
  }

  /** QString::repeated. */
  function Repeat(s: string, times: nat): (r: string)
    ensures |r| == |s| * times
  {
    if times == 0 then [] else s + Repeat(s, times - 1)
  }

  /** QStringList::join(""). */
  function Concat(parts: seq<string>): string
  {
    if parts == [] then [] else parts[0] + Concat(parts[1..])
  }

  /** Lexicographic order on strings by code point. */
  predicate StrLe(a: string, b: string)
  {
    if a == [] then true
    else if b == [] then false
    else if a[0] != b[0] then a[0] < b[0]
    else StrLe(a[1..], b[1..])
  }

  lemma {:induction false} StrLeReflexive(a: string)
    ensures StrLe(a, a)
  {
    if a != [] { StrLeReflexive(a[1..]); }
  }

  lemma {:induction false} StrLeTotal(a: string, b: string)
    ensures StrLe(a, b) || StrLe(b, a)
  {
    if a != [] && b != [] && a[0] == b[0] { StrLeTotal(a[1..], b[1..]); }
  }

  lemma {:induction false} StrLeAntisymmetric(a: string, b: string)
    requires StrLe(a, b) && StrLe(b, a)
    ensures a == b
  {
    if a != [] && b != [] {
      StrLeAntisymmetric(a[1..], b[1..]);
      assert a == [a[0]] + a[1..] && b == [b[0]] + b[1..];
    }
  }

  lemma {:induction false} StrLeTransitive(a: string, b: string, c: string)
    requires StrLe(a, b) && StrLe(b, c)
    ensures StrLe(a, c)
  {
    if a != [] && b != [] && c != [] && a[0] == b[0] == c[0] {
      StrLeTransitive(a[1..], b[1..], c[1..]);
    }
  }

  predicate IsLeast(k: string, keys: set<string>)
  {
    k in keys && forall x :: x in keys ==> StrLe(k, x)
  }

  lemma {:induction false} LeastExists(keys: set<string>)
    requires keys != {}
    ensures exists k :: IsLeast(k, keys)
    decreases |keys|
  {
    var y :| y in keys;
    if keys == {y} {
      StrLeReflexive(y);
      assert IsLeast(y, keys);
    } else {
      var rest := keys - {y};
      LeastExists(rest);
      var k :| IsLeast(k, rest);
      StrLeTotal(k, y);
      if StrLe(k, y) {
        assert IsLeast(k, keys);
      } else {
        forall x | x in keys ensures StrLe(y, x) {
          if x == y { StrLeReflexive(y); } else { StrLeTransitive(y, k, x); }
        }
        assert IsLeast(y, keys);
      }
    }
  }

  /** The least key of a non-empty set of strings. */
  function LeastKey(keys: set<string>): (k: string)
    requires keys != {}
    ensures IsLeast(k, keys)
  {
    LeastExists(keys);
    forall k1, k2 | IsLeast(k1, keys) && IsLeast(k2, keys) ensures k1 == k2 {
      StrLeAntisymmetric(k1, k2);
    }
    var k :| IsLeast(k, keys); k
  }

  /** The keys of a map in ascending order, the order in which QMap::keys() lists them. */
  function SortedKeys(keys: set<string>): (r: seq<string>)
    ensures |r| == |keys|
    ensures forall k :: k in r <==> k in keys
    decreases |keys|
  {
    if keys == {} then []
    else
      var k := LeastKey(keys);
      [k] + SortedKeys(keys - {k})
  }
}
