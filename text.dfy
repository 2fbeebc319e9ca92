/** The three byte/text encodings that feed the store's derived ids:
    Rust's decimal `Display` of integers (used by `format!`), the UTF-8
    encoding behind `str::as_bytes` (RFC 3629), and lower-case `hex::encode`. */
module Text {
  import opened Basics

  // ---------------------------------------------------------------------
  // Decimal rendering, as `format!("{n}")` prints an i64
  // ---------------------------------------------------------------------

  function DigitChar(d: nat): (c: char)
    requires d < 10
    ensures '0' <= c <= '9'
    ensures c as int - '0' as int == d
  {
    ('0' as int + d) as char
  }

  /** Decimal digits of `n`, most significant first, without leading zeros. */
  function NatToString(n: nat): (s: string)
    ensures (|s| == 1) == (n < 10)
    ensures |s| >= 1
    ensures forall i :: 0 <= i < |s| ==> '0' <= s[i] <= '9'
    decreases n
  {
    if n < 10 then [DigitChar(n)] else NatToString(n / 10) + [DigitChar(n % 10)]
  }

  /** Rust's `Display` for signed integers: a minus sign, then the digits of the magnitude. */
  function IntToString(n: int): (s: string)
    ensures |s| >= 1
    ensures (s[0] == '-') == (n < 0)
    ensures ':' !in s
  {
    if n < 0 then "-" + NatToString(-n) else NatToString(n)
  }

  lemma {:induction false} NatToStringInjective(a: nat, b: nat)
    requires NatToString(a) == NatToString(b)
    ensures a == b
    decreases a
  {
    var sa, sb := NatToString(a), NatToString(b);
    if a < 10 || b < 10 {
      assert a < 10 && b < 10;
      assert sa[0] == DigitChar(a) && sb[0] == DigitChar(b);
    } else {
      assert sa[..|sa| - 1] == NatToString(a / 10);
      assert sb[..|sb| - 1] == NatToString(b / 10);
      NatToStringInjective(a / 10, b / 10);
      assert DigitChar(a % 10) == sa[|sa| - 1] == sb[|sb| - 1] == DigitChar(b % 10);
    }
  }

  /** Distinct integers print differently. */
  lemma IntToStringInjective(a: int, b: int)
    ensures IntToString(a) == IntToString(b) <==> a == b
  {
    if IntToString(a) == IntToString(b) {
      var s := IntToString(a);
      if a < 0 {
        assert s[1..] == NatToString(-a) == NatToString(-b);
        NatToStringInjective(-a, -b);
      } else {
        NatToStringInjective(a, b);
      }
    }
  }

  /** Position of the first occurrence of `c` in `s`. */
  function IndexOf(s: string, c: char): (k: nat)
    requires c in s
    ensures k < |s| && s[k] == c
    ensures c !in s[..k]
  {
    if s[0] == c then 0 else 1 + IndexOf(s[1..], c)
  }

  lemma {:induction false} IndexOfSeparator(x: string, c: char, t: string)
    requires c !in x
    ensures IndexOf(x + [c] + t, c) == |x|
  {
    if x != [] {
      assert (x + [c] + t)[1..] == x[1..] + [c] + t;
      IndexOfSeparator(x[1..], c, t);
    }
  }

  /** A string split at a separator absent from its head determines head and tail. */
  lemma SeparatedSplit(x1: string, t1: string, x2: string, t2: string, c: char)
    requires c !in x1 && c !in x2
    ensures x1 + [c] + t1 == x2 + [c] + t2 <==> x1 == x2 && t1 == t2
  {
    if x1 + [c] + t1 == x2 + [c] + t2 {
      var s := x1 + [c] + t1;
      IndexOfSeparator(x1, c, t1);
      IndexOfSeparator(x2, c, t2);
      assert x1 == s[..|x1|] && x2 == s[..|x2|];
      assert t1 == s[|x1| + 1..] && t2 == s[|x2| + 1..];
    }
  }

  // ---------------------------------------------------------------------
  // UTF-8 (RFC 3629), as `str::as_bytes` exposes it
  // ---------------------------------------------------------------------

  /** The one to four bytes that encode one Unicode scalar value. */
  function CharToUtf8(c: char): (b: Bytes)
    ensures 1 <= |b| <= 4
    ensures (|b| == 1) == (c as int < 0x80)
    ensures |b| == 1 ==> b[0] == c as int
  {
    var cp := c as int;
    if cp < 0x80 then
      [cp]
    else if cp < 0x800 then
      [(0xC0 + cp / 0x40), (0x80 + cp % 0x40)]
    else if cp < 0x1_0000 then
      [(0xE0 + cp / 0x1000), (0x80 + (cp / 0x40) % 0x40), (0x80 + cp % 0x40)]
    else
      [(0xF0 + cp / 0x4_0000), (0x80 + (cp / 0x1000) % 0x40),
       (0x80 + (cp / 0x40) % 0x40), (0x80 + cp % 0x40)]
  }

  function Utf8(s: string): (b: Bytes)
    ensures |b| >= |s|
  {
    if s == [] then [] else CharToUtf8(s[0]) + Utf8(s[1..])
  }

  /** Encoding a concatenation is concatenating the encodings. */
  lemma {:induction false} Utf8Append(a: string, b: string)
    ensures Utf8(a + b) == Utf8(a) + Utf8(b)
  {
    if a == [] {
      assert a + b == b;
    } else {
      var h := CharToUtf8(a[0]);
      assert (a + b)[0] == a[0];
      assert (a + b)[1..] == a[1..] + b;
      Utf8Append(a[1..], b);
      calc {
        Utf8(a + b);
        h + Utf8(a[1..] + b);
        h + (Utf8(a[1..]) + Utf8(b));
        (h + Utf8(a[1..])) + Utf8(b);
        Utf8(a) + Utf8(b);
      }
    }
  }

  /** An ASCII string encodes as one byte per character, with the same code. */
  lemma {:induction false} Utf8Ascii(s: string)
    requires forall i :: 0 <= i < |s| ==> s[i] as int < 0x80
    ensures |Utf8(s)| == |s|
    ensures forall i :: 0 <= i < |s| ==> Utf8(s)[i] == s[i] as int
  {
    if s != [] {
      Utf8Ascii(s[1..]);
    }
  }

  // ---------------------------------------------------------------------
  // Lower-case hexadecimal, as `hex::encode` renders a digest
  // ---------------------------------------------------------------------

  function HexDigit(v: nat): (c: char)
    requires v < 16
  {
    if v < 10 then ('0' as int + v) as char else ('a' as int + v - 10) as char
  }

  /** Value of a lower-case hexadecimal digit; `None` for any other character. */
  function HexValue(c: char): (v: Option<nat>)
    ensures v.Some? ==> v.value < 16
  {
    if '0' <= c <= '9' then Some(c as int - '0' as int)
    else if 'a' <= c <= 'f' then Some(c as int - 'a' as int + 10)
    else None
  }

  /** Two digits per byte, high nibble first. */
  function HexEncode(b: Bytes): (s: string)
    ensures |s| == 2 * |b|
  {
    if b == [] then []
    else [HexDigit(b[0] / 16), HexDigit(b[0] % 16)] + HexEncode(b[1..])
  }

  /** Inverse of `HexEncode`: `None` on odd length or a non-digit. */
  function HexDecode(s: string): (r: Option<Bytes>)
    ensures r.Some? ==> 2 * |r.value| == |s|
    decreases |s|
  {
    if s == [] then Some([])
    else if |s| < 2 then None
    else match (HexValue(s[0]), HexValue(s[1]), HexDecode(s[2..]))
      case (Some(hi), Some(lo), Some(rest)) => Some([(hi * 16 + lo)] + rest)
      case _ => None
  }

  lemma {:induction false} HexRoundTrip(b: Bytes)
    ensures HexDecode(HexEncode(b)) == Some(b)
  {
    if b != [] {
      var hi, lo := b[0] / 16, b[0] % 16;
      var s := HexEncode(b);
      assert HexValue(HexDigit(hi)) == Some(hi);
      assert HexValue(HexDigit(lo)) == Some(lo);
      assert s[2..] == HexEncode(b[1..]);
      HexRoundTrip(b[1..]);
      assert (hi * 16 + lo) == b[0];
      assert [b[0]] + b[1..] == b;
    }
  }

  /** Hex rendering loses nothing: two byte strings render alike exactly when equal. */
  lemma HexEncodeInjective(a: Bytes, b: Bytes)
    ensures HexEncode(a) == HexEncode(b) <==> a == b
  {
    HexRoundTrip(a);
    HexRoundTrip(b);
  }
}
