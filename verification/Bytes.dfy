/** Bytes, C strings, their two comparison orders, and decimal numerals.
    A C string is the sequence of its bytes, without the terminating NUL. */
module Bytes {

  type byte = x: int | 0 <= x < 256
  type bytes = seq<byte>

  datatype Option<+T> = None | Some(value: T)

  const NUL: byte := 0
  const TAB: byte := 9
  const NEWLINE: byte := 10
  const QUOTE: byte := 34
  const PLUS: byte := 43
  const COMMA: byte := 44
  const MINUS: byte := 45
  const DOT: byte := 46
  const SLASH: byte := 47
  const ZERO: byte := 48
  const ONE: byte := 49
  const NINE: byte := 57
  const COLON: byte := 58
  const LBRACKET: byte := 91
  const BACKSLASH: byte := 92
  const RBRACKET: byte := 93
  const LBRACE: byte := 123
  const RBRACE: byte := 125
  const TILDE: byte := 126

  /** The bytes of a text in ASCII; any other character becomes a question mark. */
  function Ascii(s: string): (r: bytes)
    ensures |r| == |s| && forall i :: 0 <= i < |s| && s[i] < 128 as char ==> r[i] == s[i] as int
  {
    seq(|s|, i requires 0 <= i < |s| => if s[i] < 128 as char then s[i] as int else 63)
  }

  /** C's `tolower` on one byte, in the "C" locale. */
  function ToLower(b: byte): byte {
    if 65 <= b <= 90 then b + 32 else b
  }

  /** A string with every letter in lower case. */
  function Fold(s: bytes): (r: bytes)
    ensures |r| == |s|
  {
    seq(|s|, i requires 0 <= i < |s| => ToLower(s[i]))
  }

  /** C's `strcmp`, up to the magnitude of a non-zero result. */
  function StrCmp(a: bytes, b: bytes): int {
    if a == [] && b == [] then 0
    else if a == [] then -1
    else if b == [] then 1
    else if a[0] != b[0] then a[0] - b[0]
    else StrCmp(a[1..], b[1..])
  }

  /** The form of a key that a comparison mode looks at. */
  function Key(s: bytes, caseSensitive: bool): bytes {
    if caseSensitive then s else Fold(s)
  }

  /** `compare_strings` on two non-NULL strings. */
  function CompareStrings(a: bytes, b: bytes, caseSensitive: bool): int {
    StrCmp(Key(a, caseSensitive), Key(b, caseSensitive))
  }

  /** The letters from A to Z, and nothing else, have a lower case. */
  lemma LowerCases(b: byte, i: nat)
    requires i < 26
    ensures ToLower('A' as int + i) == 'a' as int + i
    ensures !('A' <= b as char <= 'Z') ==> ToLower(b) == b
  {
  }

  /** `a` is a proper prefix of `b`, or smaller at the first byte where they differ. */
  ghost predicate Precedes(a: bytes, b: bytes) {
    exists k :: 0 <= k <= |a| && PrecedesAt(a, b, k)
  }

  ghost predicate PrecedesAt(a: bytes, b: bytes, k: nat) {
    k <= |a| && k < |b| && a[..k] == b[..k] && (k == |a| || a[k] < b[k])
  }

  /** `strcmp` orders strings by their bytes. */
  lemma {:induction false} StrCmpOrders(a: bytes, b: bytes)
    ensures StrCmp(a, b) < 0 <==> Precedes(a, b)
  {
    if a == [] || b == [] {
      assert PrecedesAt(a, b, 0) <==> a == [] && b != [];
    } else if a[0] != b[0] {
      assert PrecedesAt(a, b, 0) <==> a[0] < b[0];
      assert forall k :: 0 < k <= |a| && k < |b| && a[..k] == b[..k] ==> a[..k][0] == b[..k][0];
    } else {
      StrCmpOrders(a[1..], b[1..]);
      if k :| 0 <= k <= |a[1..]| && PrecedesAt(a[1..], b[1..], k) {
        assert a[..k + 1] == [a[0]] + a[1..][..k] && b[..k + 1] == [b[0]] + b[1..][..k];
        assert PrecedesAt(a, b, k + 1);
      }
      if k :| 0 <= k <= |a| && PrecedesAt(a, b, k) {
        assert k > 0 ==> a[1..][..k - 1] == a[..k][1..] && b[1..][..k - 1] == b[..k][1..];
        assert k > 0 && PrecedesAt(a[1..], b[1..], k - 1);
      }
    }
  }

  lemma {:induction false} StrCmpEqual(a: bytes, b: bytes)
    ensures StrCmp(a, b) == 0 <==> a == b
  {
    if a != [] && b != [] && a[0] == b[0] {
      StrCmpEqual(a[1..], b[1..]);
      assert a == [a[0]] + a[1..] && b == [b[0]] + b[1..];
    }
  }

  lemma {:induction false} StrCmpAntisymmetric(a: bytes, b: bytes)
    ensures StrCmp(a, b) < 0 <==> StrCmp(b, a) > 0
  {
    if a != [] && b != [] && a[0] == b[0] {
      StrCmpAntisymmetric(a[1..], b[1..]);
    }
  }

  lemma {:induction false} StrCmpTransitive(a: bytes, b: bytes, c: bytes)
    requires StrCmp(a, b) <= 0 && StrCmp(b, c) <= 0
    ensures StrCmp(a, c) <= 0
    ensures StrCmp(a, b) < 0 || StrCmp(b, c) < 0 ==> StrCmp(a, c) < 0
  {
    if a != [] && b != [] && c != [] && a[0] == b[0] == c[0] {
      StrCmpTransitive(a[1..], b[1..], c[1..]);
    }
  }

  /** `%lu` and the non-negative half of `%d`. */
  function Decimal(n: nat): (r: bytes)
    ensures |r| >= 1
  {
    if n < 10 then [ZERO + n] else Decimal(n / 10) + [ZERO + n % 10]
  }

  predicate IsDigit(b: byte) {
    ZERO <= b <= NINE
  }

  predicate AllDigits(s: bytes) {
    forall i :: 0 <= i < |s| ==> IsDigit(s[i])
  }

  /** The number a run of digits denotes. */
  function Numeral(s: bytes): (n: int)
    requires AllDigits(s)
    ensures n >= 0
  {
    if s == [] then 0 else 10 * Numeral(s[..|s| - 1]) + (s[|s| - 1] - ZERO)
  }

  /** Writing a number and reading it back gives the number; only zero is written with a leading 0. */
  lemma {:induction false} DecimalRoundTrip(n: nat)
    ensures AllDigits(Decimal(n))
    ensures Numeral(Decimal(n)) == n
    ensures Decimal(n)[0] == ZERO ==> n == 0
    ensures n < 10 ==> |Decimal(n)| == 1
  {
    var d := Decimal(n);
    if n >= 10 {
      DecimalRoundTrip(n / 10);
      assert d[..|d| - 1] == Decimal(n / 10);
    } else {
      assert d[..|d| - 1] == [];
    }
  }
}
