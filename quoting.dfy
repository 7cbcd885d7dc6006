/** `urllib.parse.quote(q, safe='')` as Python 3.7 and later define it:
    the query is encoded as UTF-8, and every byte outside the always-safe
    set (ASCII letters, digits and `_.-~`) becomes `%XX` in upper-case
    hexadecimal. `archive` (twarc.py:224-226) names its files with it. */
module Quoting {

  /** The bytes of `c` in UTF-8. */
  function Utf8(c: char): (bytes: seq<nat>)
    ensures 1 <= |bytes| <= 4
    ensures forall i | 0 <= i < |bytes| :: bytes[i] < 256
    ensures (c as int < 0x80) <==> |bytes| == 1
    ensures |bytes| == 1 ==> bytes[0] == c as int
  {
    var n := c as int;
    if n < 0x80 then [n]
    else if n < 0x800 then [0xC0 + n / 0x40, 0x80 + n % 0x40]
    else if n < 0x10000 then [0xE0 + n / 0x1000, 0x80 + n / 0x40 % 0x40, 0x80 + n % 0x40]
    else [0xF0 + n / 0x40000, 0x80 + n / 0x1000 % 0x40, 0x80 + n / 0x40 % 0x40, 0x80 + n % 0x40]
  }

  /** Characters `quote` never escapes. */
  predicate AlwaysSafe(c: char)
  {
    ('A' <= c <= 'Z') || ('a' <= c <= 'z') || ('0' <= c <= '9') || c == '_' || c == '.' || c == '-' || c == '~'
  }

  function HexDigit(d: nat): char
    requires d < 16
  {
    "0123456789ABCDEF"[d]
  }

  /** `%XX` for each byte. */
  function Percent(bytes: seq<nat>): (r: string)
    requires forall i | 0 <= i < |bytes| :: bytes[i] < 256
    ensures |r| == 3 * |bytes|
    ensures bytes != [] ==> r[0] == '%'
  {
    if bytes == [] then []
    else ['%', HexDigit(bytes[0] / 16), HexDigit(bytes[0] % 16)] + Percent(bytes[1..])
  }

  function QuoteChar(c: char): (r: string)
    ensures AlwaysSafe(c) ==> r == [c]
    ensures !AlwaysSafe(c) ==> 3 <= |r| && r[0] == '%'
  {
    if AlwaysSafe(c) then [c] else Percent(Utf8(c))
  }

  /** `quote(q, safe='')`. */
  function Quote(q: string): string
  {
    if q == [] then [] else QuoteChar(q[0]) + Quote(q[1..])
  }

  /** A query made only of always-safe characters is its own quoting, and
      a query whose first character is not always safe is quoted into a
      name that starts with `%`. */
  lemma {:induction false} QuoteSafe(q: string)
    ensures (forall i | 0 <= i < |q| :: AlwaysSafe(q[i])) ==> Quote(q) == q
    ensures q != [] && !AlwaysSafe(q[0]) ==> Quote(q) != [] && Quote(q)[0] == '%'
    decreases |q|
  {
    if q != [] {
      QuoteSafe(q[1..]);
      assert q == [q[0]] + q[1..];
    }
  }
}
