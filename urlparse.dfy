/** The parts of Python's `urllib.parse` the tool relies on. `urlparse`
    itself is not modelled: its result is the datatype `UrlParts`. Modelled
    are `quote` and `unquote`, percent-encoding in the sense of section 2.1 of
    RFC 3986: text is encoded to UTF-8, every byte that is neither unreserved
    nor in the caller's safe set becomes `%XX` with upper-case hex digits, and
    decoding turns `%XX` back into bytes and decodes them as UTF-8, replacing
    each ill-formed part by U+FFFD. */
module UrlParse {

  /** The six components `urlparse` splits a URL into. */
  datatype UrlParts = UrlParts(
    scheme: string, netloc: string, path: string,
    params: string, query: string, fragment: string)

  type Byte = b: int | 0 <= b < 256

  const Replacement: char := '\U{FFFD}'

  // ---------------------------------------------------------------- UTF-8

  predicate IsCont(b: Byte) { 0x80 <= b <= 0xBF }

  /** The UTF-8 encoding of one scalar value. */
  function EncodeChar(c: char): (r: seq<Byte>)
    ensures 1 <= |r| <= 4
    ensures (|r| == 1) == (c as int < 0x80)
    ensures |r| == 1 ==> r[0] == c as int
    ensures |r| > 1 ==> forall i :: 0 <= i < |r| ==> r[i] >= 0x80
  {
    var n := c as int;
    if n < 0x80 then [n]
    else if n < 0x800 then [0xC0 + n / 64, 0x80 + n % 64]
    else if n < 0x10000 then [0xE0 + n / 4096, 0x80 + (n / 64) % 64, 0x80 + n % 64]
    else [0xF0 + n / 262144, 0x80 + (n / 4096) % 64, 0x80 + (n / 64) % 64, 0x80 + n % 64]
  }

  /** `s.encode("utf-8")` */
  function Encode(s: string): (r: seq<Byte>)
    ensures |r| >= |s|
  {
    if s == [] then [] else EncodeChar(s[0]) + Encode(s[1..])
  }

  lemma {:induction false} EncodeAppend(a: string, b: string)
    ensures Encode(a + b) == Encode(a) + Encode(b)
  {
    if a != [] {
      var ab := a + b;
      assert ab[0] == a[0] && ab[1..] == a[1..] + b;
      EncodeAppend(a[1..], b);
      calc {
        Encode(ab);
        EncodeChar(ab[0]) + Encode(ab[1..]);
        EncodeChar(a[0]) + (Encode(a[1..]) + Encode(b));
        (EncodeChar(a[0]) + Encode(a[1..])) + Encode(b);
      }
    } else {
      assert a + b == b;
    }
  }

  /** Number of continuation bytes a lead byte announces; 0 for an ASCII
      byte, -1 for a byte that cannot start a well-formed sequence. */
  function Needed(b0: Byte): int
  {
    if b0 < 0x80 then 0
    else if 0xC2 <= b0 <= 0xDF then 1
    else if 0xE0 <= b0 <= 0xEF then 2
    else if 0xF0 <= b0 <= 0xF4 then 3
    else -1
  }

  /** Range allowed for the byte after the lead byte (Table 3-7 of the
      Unicode Standard): narrower after E0, ED, F0 and F4. */
  predicate SecondOk(b0: Byte, b1: Byte)
  {
    if b0 == 0xE0 then 0xA0 <= b1 <= 0xBF
    else if b0 == 0xED then 0x80 <= b1 <= 0x9F
    else if b0 == 0xF0 then 0x90 <= b1 <= 0xBF
    else if b0 == 0xF4 then 0x80 <= b1 <= 0x8F
    else IsCont(b1)
  }

  function Decode2(b0: Byte, b1: Byte): (r: char)
    requires 0xC2 <= b0 <= 0xDF && IsCont(b1)
    ensures 0x80 <= r as int < 0x800
  {
    ((b0 - 0xC0) * 64 + (b1 - 0x80)) as char
  }

  function Decode3(b0: Byte, b1: Byte, b2: Byte): (r: char)
    requires 0xE0 <= b0 <= 0xEF && SecondOk(b0, b1) && IsCont(b2)
    ensures 0x800 <= r as int < 0x10000
  {
    ((b0 - 0xE0) * 4096 + (b1 - 0x80) * 64 + (b2 - 0x80)) as char
  }

  function Decode4(b0: Byte, b1: Byte, b2: Byte, b3: Byte): (r: char)
    requires 0xF0 <= b0 <= 0xF4 && SecondOk(b0, b1) && IsCont(b2) && IsCont(b3)
    ensures 0x10000 <= r as int
  {
    ((b0 - 0xF0) * 262144 + (b1 - 0x80) * 4096 + (b2 - 0x80) * 64 + (b3 - 0x80)) as char
  }

  /** Decodes the sequence at the start of `b`: the scalar value and the
      number of bytes it used, or U+FFFD for the maximal ill-formed prefix
      (at least one byte), as Python's "replace" error handler does. */
  function DecodeOne(b: seq<Byte>): (r: (char, nat))
    requires b != []
    ensures 1 <= r.1 <= |b|
  {
    var b0 := b[0];
    var k := Needed(b0);
    if k == 0 then (b0 as char, 1)
    else if k < 0 then (Replacement, 1)
    else if |b| < 2 || !SecondOk(b0, b[1]) then (Replacement, 1)
    else if k == 1 then (Decode2(b0, b[1]), 2)
    else if |b| < 3 || !IsCont(b[2]) then (Replacement, 2)
    else if k == 2 then (Decode3(b0, b[1], b[2]), 3)
    else if |b| < 4 || !IsCont(b[3]) then (Replacement, 3)
    else (Decode4(b0, b[1], b[2], b[3]), 4)
  }

  /** `bytes.decode("utf-8", "replace")` */
  function Decode(b: seq<Byte>): string
    decreases |b|
  {
    if b == [] then [] else
    var (c, n) := DecodeOne(b);
    [c] + Decode(b[n..])
  }

  /** The decoder reads back exactly the character the encoder wrote. */
  lemma DecodeOneEncodeChar(c: char, rest: seq<Byte>)
    ensures DecodeOne(EncodeChar(c) + rest) == (c, |EncodeChar(c)|)
  {
    var n := c as int;
    if n < 0x80 {
    } else if n < 0x800 {
      DecodeTwo(c, rest);
    } else if n < 0x10000 {
      DecodeThree(c, rest);
    } else {
      DecodeFour(c, rest);
    }
  }

  lemma DecodeTwo(c: char, rest: seq<Byte>)
    requires 0x80 <= c as int < 0x800
    ensures DecodeOne(EncodeChar(c) + rest) == (c, 2)
  {
    var n := c as int;
    var q, l := n / 64, n % 64;
    assert n == q * 64 + l && 0 <= l < 64;
    var b := EncodeChar(c) + rest;
    assert b[0] == 0xC0 + q && b[1] == 0x80 + l;
    assert Decode2(b[0], b[1]) as int == n;
  }

  lemma DecodeThree(c: char, rest: seq<Byte>)
    requires 0x800 <= c as int < 0x10000
    ensures DecodeOne(EncodeChar(c) + rest) == (c, 3)
  {
    var n := c as int;
    var q, l := n / 64, n % 64;
    var a, m := q / 64, q % 64;
    assert n == q * 64 + l && 0 <= l < 64;
    assert q == a * 64 + m && 0 <= m < 64;
    assert n == a * 4096 + m * 64 + l;
    assert n / 4096 == a;
    var b := EncodeChar(c) + rest;
    assert b[0] == 0xE0 + a && b[1] == 0x80 + m && b[2] == 0x80 + l;
    assert a == 0 ==> m >= 0x20;
    assert a == 0xD ==> m < 0x20;
    assert Decode3(b[0], b[1], b[2]) as int == n;
  }

  lemma DecodeFour(c: char, rest: seq<Byte>)
    requires 0x10000 <= c as int
    ensures DecodeOne(EncodeChar(c) + rest) == (c, 4)
  {
    var n := c as int;
    var q, l := n / 64, n % 64;
    var p, m := q / 64, q % 64;
    var a, k := p / 64, p % 64;
    assert n == q * 64 + l && 0 <= l < 64;
    assert q == p * 64 + m && 0 <= m < 64;
    assert p == a * 64 + k && 0 <= k < 64;
    assert n == a * 262144 + k * 4096 + m * 64 + l;
    assert n / 262144 == a && n / 4096 == p;
    var b := EncodeChar(c) + rest;
    assert b[0] == 0xF0 + a && b[1] == 0x80 + k && b[2] == 0x80 + m && b[3] == 0x80 + l;
    assert a == 0 ==> k >= 0x10;
    assert a == 4 ==> k < 0x10;
    assert Decode4(b[0], b[1], b[2], b[3]) as int == n;
  }

  /** Decoding what was encoded gives the text back. */
  lemma {:induction false} DecodeEncode(s: string)
    ensures Decode(Encode(s)) == s
  {
    if s != [] {
      var e := EncodeChar(s[0]);
      DecodeOneEncodeChar(s[0], Encode(s[1..]));
      assert (e + Encode(s[1..]))[|e|..] == Encode(s[1..]);
      DecodeEncode(s[1..]);
    }
  }

  // ---------------------------------------------------------------- quote

  /** Characters `quote` never encodes: ASCII letters, digits and `_.-~`. */
  predicate AlwaysSafe(c: char)
  {
    ('A' <= c <= 'Z') || ('a' <= c <= 'z') || ('0' <= c <= '9') ||
    c == '_' || c == '.' || c == '-' || c == '~'
  }

  predicate IsHex(c: char)
  {
    ('0' <= c <= '9') || ('A' <= c <= 'F') || ('a' <= c <= 'f')
  }

  function HexValue(c: char): (r: nat)
    requires IsHex(c)
    ensures r < 16
  {
    if '0' <= c <= '9' then c as int - '0' as int
    else if 'A' <= c <= 'F' then c as int - 'A' as int + 10
    else c as int - 'a' as int + 10
  }

  function HexDigit(d: nat): (r: char)
    requires d < 16
    ensures IsHex(r) && HexValue(r) == d && r != '/' && r != '%'
  {
    if d < 10 then ('0' as int + d) as char else ('A' as int + d - 10) as char
  }

  predicate IsAsciiChar(c: char) { c as int < 0x80 }

  /** A safe set as callers pass it: ASCII characters other than `%`. */
  predicate ValidSafe(safe: set<char>)
  {
    forall c :: c in safe ==> IsAsciiChar(c) && c != '%'
  }

  /** One byte of `quote_from_bytes`: kept as its character when safe,
      otherwise `%XX`. */
  function QuoteByte(b: Byte, safe: set<char>): (r: string)
    ensures forall i :: 0 <= i < |r| ==> IsAsciiChar(r[i])
    ensures |r| == 1 ==> r[0] as int == b
  {
    if b < 0x80 && (AlwaysSafe(b as char) || b as char in safe) then [b as char]
    else ['%', HexDigit(b / 16), HexDigit(b % 16)]
  }

  function QuoteBytes(bs: seq<Byte>, safe: set<char>): (r: string)
    ensures forall i :: 0 <= i < |r| ==> IsAsciiChar(r[i])
  {
    if bs == [] then [] else QuoteByte(bs[0], safe) + QuoteBytes(bs[1..], safe)
  }

  /** `quote(s, safe)` */
  function Quote(s: string, safe: set<char>): (r: string)
    ensures forall i :: 0 <= i < |r| ==> IsAsciiChar(r[i])
  {
    QuoteBytes(Encode(s), safe)
  }

  lemma {:induction false} QuoteBytesAppend(a: seq<Byte>, b: seq<Byte>, safe: set<char>)
    ensures QuoteBytes(a + b, safe) == QuoteBytes(a, safe) + QuoteBytes(b, safe)
  {
    if a != [] {
      var ab := a + b;
      assert ab[0] == a[0] && ab[1..] == a[1..] + b;
      QuoteBytesAppend(a[1..], b, safe);
      calc {
        QuoteBytes(ab, safe);
        QuoteByte(ab[0], safe) + QuoteBytes(ab[1..], safe);
        QuoteByte(a[0], safe) + (QuoteBytes(a[1..], safe) + QuoteBytes(b, safe));
        (QuoteByte(a[0], safe) + QuoteBytes(a[1..], safe)) + QuoteBytes(b, safe);
      }
    } else {
      assert a + b == b;
    }
  }

  /** Quoting works character by character. */
  lemma QuoteAppend(a: string, b: string, safe: set<char>)
    ensures Quote(a + b, safe) == Quote(a, safe) + Quote(b, safe)
  {
    EncodeAppend(a, b);
    QuoteBytesAppend(Encode(a), Encode(b), safe);
  }

  /** Quoting `c` never produces `d`, a punctuation character other than `%`,
      unless `c` is `d` itself and `d` is safe. */
  lemma QuoteCharAvoids(c: char, safe: set<char>, d: char)
    requires IsAsciiChar(d) && !AlwaysSafe(d) && d != '%' && (d in safe ==> c != d)
    ensures d !in Quote([c], safe)
  {
    var e := EncodeChar(c);
    assert Encode([c]) == e + Encode([]);
    QuoteBytesAppend(e, [], safe);
    assert Quote([c], safe) == QuoteBytes(e, safe);
    if |e| == 1 {
      assert QuoteBytes(e, safe) == QuoteByte(e[0], safe);
    } else {
      QuoteBytesHigh(e, safe);
    }
  }

  /** Bytes of multi-byte sequences always come out as `%XX`, which holds
      no character a safe set may contain other than hex digits and `%`. */
  lemma {:induction false} QuoteBytesHigh(bs: seq<Byte>, safe: set<char>)
    requires forall i :: 0 <= i < |bs| ==> bs[i] >= 0x80
    ensures forall i :: 0 <= i < |QuoteBytes(bs, safe)| ==>
      var x := QuoteBytes(bs, safe)[i]; x == '%' || IsHex(x)
  {
    if bs != [] {
      QuoteBytesHigh(bs[1..], safe);
    }
  }

  /** A character in the safe set is kept as itself. */
  lemma QuoteKeepsSafe(d: char, safe: set<char>)
    requires d in safe && IsAsciiChar(d)
    ensures Quote([d], safe) == [d]
  {
    var b: Byte := d as int;
    assert Encode([d]) == [b];
    assert b as char == d;
    assert QuoteBytes([b], safe) == QuoteByte(b, safe) + QuoteBytes([], safe);
  }

  /** Quoting never produces `d`, an ASCII character other than a letter, a
      digit, `_.-~` or `%` (such as `/` or `&`), unless `d` is safe and
      occurs in the text. */
  lemma {:induction false} QuoteAvoids(s: string, safe: set<char>, d: char)
    requires IsAsciiChar(d) && !AlwaysSafe(d) && d != '%' && (d in safe ==> d !in s)
    ensures d !in Quote(s, safe)
  {
    if s != [] {
      assert s == [s[0]] + s[1..];
      QuoteAppend([s[0]], s[1..], safe);
      QuoteCharAvoids(s[0], safe, d);
      QuoteAvoids(s[1..], safe, d);
    }
  }

  // ---------------------------------------------------------------- unquote

  /** `unquote_to_bytes` on ASCII text: `%` followed by two hex digits is that
      byte, anything else (a lone `%` included) is the character's own byte. */
  function PercentBytes(s: string): seq<Byte>
    requires forall i :: 0 <= i < |s| ==> IsAsciiChar(s[i])
  {
    if s == [] then []
    else if s[0] == '%' && |s| >= 3 && IsHex(s[1]) && IsHex(s[2]) then
      [HexValue(s[1]) * 16 + HexValue(s[2])] + PercentBytes(s[3..])
    else
      assert IsAsciiChar(s[0]);
      var b: Byte := s[0] as int;
      [b] + PercentBytes(s[1..])
  }

  /** Length of the leading run of ASCII characters. */
  function AsciiRun(s: string): (k: nat)
    ensures k <= |s|
    ensures forall i :: 0 <= i < k ==> IsAsciiChar(s[i])
    ensures k < |s| ==> !IsAsciiChar(s[k])
  {
    if s == [] || !IsAsciiChar(s[0]) then 0 else 1 + AsciiRun(s[1..])
  }

  /** `unquote(s)`: non-ASCII characters are kept; each maximal run of ASCII
      characters is turned into bytes and decoded as UTF-8 with replacement.
      (Python returns early when `s` holds no `%`; that gives the same text.) */
  function Unquote(s: string): string
    decreases |s|
  {
    if s == [] then []
    else if !IsAsciiChar(s[0]) then [s[0]] + Unquote(s[1..])
    else
      var k := AsciiRun(s);
      Decode(PercentBytes(s[..k])) + Unquote(s[k..])
  }

  lemma {:induction false} PercentBytesQuoted(bs: seq<Byte>, safe: set<char>)
    requires ValidSafe(safe)
    ensures PercentBytes(QuoteBytes(bs, safe)) == bs
  {
    if bs != [] {
      var q := QuoteByte(bs[0], safe);
      var rest := QuoteBytes(bs[1..], safe);
      assert QuoteBytes(bs, safe) == q + rest;
      if |q| == 1 {
        assert (q + rest)[1..] == rest;
      } else {
        assert (q + rest)[3..] == rest;
        assert HexValue(q[1]) * 16 + HexValue(q[2]) == bs[0];
      }
      PercentBytesQuoted(bs[1..], safe);
    }
  }

  /** `unquote(quote(s, safe)) == s` for every text and every safe set of
      ASCII characters without `%`. */
  lemma UnquoteQuote(s: string, safe: set<char>)
    requires ValidSafe(safe)
    ensures Unquote(Quote(s, safe)) == s
  {
    var q := Quote(s, safe);
    if q != [] {
      assert AsciiRun(q) == |q| by { AllAsciiRun(q); }
      assert q[..|q|] == q;
      assert q[|q|..] == [];
    }
    PercentBytesQuoted(Encode(s), safe);
    DecodeEncode(s);
    if q == [] {
      assert Encode(s) == PercentBytes(q) == [];
      assert |s| <= |Encode(s)|;
    }
  }

  lemma {:induction false} AllAsciiRun(s: string)
    requires forall i :: 0 <= i < |s| ==> IsAsciiChar(s[i])
    ensures AsciiRun(s) == |s|
  {
    if s != [] {
      AllAsciiRun(s[1..]);
    }
  }
}
