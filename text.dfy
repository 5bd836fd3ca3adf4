/** Character and string helpers shared by every module: the small part of
    Python's `str` behaviour the tool relies on (lower-casing, stripping,
    prefix tests, digit tests, decimal rendering) and the path helpers
    `posixpath.basename` and `splitext`. */
module Text {

  /** Python's `str.isspace()` set: the characters `str.strip()` removes. */
  predicate IsSpace(c: char)
  {
    if c <= ' ' then c == ' ' || ('\t' <= c <= '\r') || ('\U{1C}' <= c <= '\U{1F}')
    else if c < '\U{1680}' then c == '\U{85}' || c == '\U{A0}'
    else
      c == '\U{1680}' || ('\U{2000}' <= c <= '\U{200A}') || c == '\U{2028}' || c == '\U{2029}' ||
      c == '\U{202F}' || c == '\U{205F}' || c == '\U{3000}'
  }

  predicate IsUpper(c: char) { 'A' <= c <= 'Z' }

  predicate IsDigit(c: char) { '0' <= c <= '9' }

  /** Lower-cases one character (the ASCII part of `str.lower()`). */
  function LowerChar(c: char): (r: char)
    ensures !IsUpper(r)
    ensures IsUpper(c) ==> r as int == c as int + 32
    ensures !IsUpper(c) ==> r == c
  {
    if IsUpper(c) then (c as int + 32) as char else c
  }

  function Lower(s: string): (r: string)
    ensures |r| == |s|
    ensures forall i :: 0 <= i < |s| ==> r[i] == LowerChar(s[i])
  {
    if s == [] then [] else [LowerChar(s[0])] + Lower(s[1..])
  }

  lemma {:induction false} LowerIdempotent(s: string)
    ensures Lower(Lower(s)) == Lower(s)
  {
    if s != [] {
      LowerIdempotent(s[1..]);
    }
  }

  lemma {:induction false} LowerAppend(a: string, b: string)
    ensures Lower(a + b) == Lower(a) + Lower(b)
  {
    if a != [] {
      assert (a + b)[1..] == a[1..] + b;
      LowerAppend(a[1..], b);
    }
  }

  /** Lower-casing neither creates nor removes a character that is not an
      upper-case letter. */
  lemma LowerKeeps(s: string, c: char)
    requires !IsUpper(c) && !('a' <= c <= 'z')
    ensures c in Lower(s) <==> c in s
  {
    if c in Lower(s) {
      var i :| 0 <= i < |s| && Lower(s)[i] == c;
      assert s[i] == c;
    }
    if c in s {
      var i :| 0 <= i < |s| && s[i] == c;
      assert Lower(s)[i] == c;
    }
  }

  /** `s.startswith(p)` */
  predicate StartsWith(s: string, p: string)
  {
    |p| <= |s| && s[..|p|] == p
  }

  /** `s.endswith(p)` */
  predicate EndsWith(s: string, p: string)
  {
    |p| <= |s| && s[|s| - |p|..] == p
  }

  function StripLeft(s: string): (r: string)
    ensures |r| <= |s| && r == s[|s| - |r|..]
    ensures r == [] || !IsSpace(r[0])
    ensures forall i :: 0 <= i < |s| - |r| ==> IsSpace(s[i])
  {
    if s != [] && IsSpace(s[0]) then
      var r := StripLeft(s[1..]);
      assert forall i :: 1 <= i < |s| ==> s[i] == s[1..][i - 1];
      r
    else s
  }

  function StripRight(s: string): (r: string)
    ensures |r| <= |s| && r == s[..|r|]
    ensures r == [] || !IsSpace(r[|r| - 1])
    ensures forall i :: |r| <= i < |s| ==> IsSpace(s[i])
  {
    if s != [] && IsSpace(s[|s| - 1]) then StripRight(s[..|s| - 1]) else s
  }

  /** Number of leading whitespace characters of `s`. */
  function LeadingSpaces(s: string): (k: nat)
    ensures k <= |s|
    ensures forall i :: 0 <= i < k ==> IsSpace(s[i])
    ensures k == |s| || !IsSpace(s[k])
  {
    |s| - |StripLeft(s)|
  }

  /** `s.strip()`: removes leading and trailing whitespace and nothing else. */
  function Strip(s: string): (r: string)
    ensures LeadingSpaces(s) + |r| <= |s|
    ensures r == s[LeadingSpaces(s)..LeadingSpaces(s) + |r|]
    ensures forall i :: LeadingSpaces(s) + |r| <= i < |s| ==> IsSpace(s[i])
    ensures r == [] || (!IsSpace(r[0]) && !IsSpace(r[|r| - 1]))
  {
    var t := StripLeft(s);
    var r := StripRight(t);
    PrefixOfSuffix(s, t, r);
    r
  }

  /** Python's `str.isdigit()` restricted to ASCII digits; `"".isdigit()` is false. */
  predicate IsDigits(s: string)
  {
    |s| > 0 && forall i :: 0 <= i < |s| ==> IsDigit(s[i])
  }

  function DigitValue(c: char): (r: nat)
    requires IsDigit(c)
    ensures r < 10
  {
    c as int - '0' as int
  }

  function DigitChar(d: nat): (r: char)
    requires d < 10
    ensures IsDigit(r) && DigitValue(r) == d
  {
    ('0' as int + d) as char
  }

  /** `int(s)` for a string of decimal digits. */
  function DigitsValue(s: string): nat
    requires forall i :: 0 <= i < |s| ==> IsDigit(s[i])
  {
    if s == [] then 0 else 10 * DigitsValue(s[..|s| - 1]) + DigitValue(s[|s| - 1])
  }

  /** `str(n)` for a natural number. */
  function Decimal(n: nat): (r: string)
    ensures IsDigits(r)
    ensures |r| == 1 || r[0] != '0'
  {
    if n < 10 then [DigitChar(n)] else Decimal(n / 10) + [DigitChar(n % 10)]
  }

  /** `str(n)` for any integer. */
  function IntToString(n: int): (r: string)
    ensures r != []
    ensures n >= 0 ==> IsDigits(r)
    ensures n < 0 ==> r[0] == '-'
  {
    if n >= 0 then Decimal(n) else "-" + Decimal(-n)
  }

  /** Rendering a number in decimal and reading it back gives the number. */
  lemma {:induction false} DecimalRoundTrip(n: nat)
    ensures DigitsValue(Decimal(n)) == n
  {
    if n >= 10 {
      var s := Decimal(n);
      assert s[..|s| - 1] == Decimal(n / 10);
      DecimalRoundTrip(n / 10);
    }
  }

  lemma DecimalInjective(m: nat, n: nat)
    ensures Decimal(m) == Decimal(n) ==> m == n
  {
    DecimalRoundTrip(m);
    DecimalRoundTrip(n);
  }

  function Pow10(k: nat): (r: nat)
    ensures r >= 1
  {
    if k == 0 then 1 else 10 * Pow10(k - 1)
  }

  /** A number is below ten to the power of its digit count. */
  lemma {:induction false} DecimalLengthBound(n: nat)
    ensures n < Pow10(|Decimal(n)|)
  {
    if n >= 10 {
      DecimalLengthBound(n / 10);
    }
  }

  lemma {:induction false} Pow10Monotone(j: nat, k: nat)
    requires j <= k
    ensures Pow10(j) <= Pow10(k)
  {
    if j < k {
      Pow10Monotone(j, k - 1);
    }
  }

  /** Index of the last occurrence of `c` in `s[..n]`, or -1. */
  function LastIndexBelow(s: string, c: char, n: nat): (r: int)
    requires n <= |s|
    ensures -1 <= r < n
    ensures r >= 0 ==> s[r] == c
    ensures forall i :: r < i < n ==> s[i] != c
  {
    if n == 0 then -1
    else if s[n - 1] == c then n - 1
    else LastIndexBelow(s, c, n - 1)
  }

  /** `s.rfind(c)` */
  function LastIndexOf(s: string, c: char): (r: int)
    ensures -1 <= r < |s|
    ensures r >= 0 ==> s[r] == c
    ensures forall i :: r < i < |s| ==> s[i] != c
  {
    LastIndexBelow(s, c, |s|)
  }

  /** The last occurrence is the one with no occurrence after it. */
  lemma LastIndexOfAt(s: string, c: char, k: int)
    requires -1 <= k < |s| && (k >= 0 ==> s[k] == c)
    requires forall i :: k < i < |s| ==> s[i] != c
    ensures LastIndexOf(s, c) == k
  {
  }

  /** The text after the last `c`, or all of `s` when `c` does not occur
      (`s.split(c)[-1]`, `s.rpartition(c)[2]`). */
  function AfterLast(s: string, c: char): (r: string)
    ensures c !in r
    ensures EndsWith(s, r)
    ensures c in s ==> |r| < |s| && s[|s| - |r| - 1] == c
    ensures c !in s ==> r == s
  {
    s[LastIndexOf(s, c) + 1..]
  }

  /** After a prefix that ends in `c` (or is empty), the text after the last
      `c` is whatever follows, provided that it holds no `c`. */
  lemma AfterLastAppend(x: string, y: string, c: char)
    requires x == [] || x[|x| - 1] == c
    requires c !in y
    ensures AfterLast(x + y, c) == y
  {
    var s := x + y;
    LastIndexOfAt(s, c, |x| - 1);
    assert s[|x|..] == y;
  }

  /** `posixpath.basename`: the text after the last `/`. */
  function Basename(p: string): (r: string)
    ensures '/' !in r && EndsWith(p, r)
  {
    AfterLast(p, '/')
  }

  predicate AllDots(s: string)
  {
    forall i :: 0 <= i < |s| ==> s[i] == '.'
  }

  /** An extension as `splitext` returns it: empty, or a dot followed by
      neither dots nor separators. */
  predicate IsExtension(e: string)
  {
    e == [] || (e[0] == '.' && '.' !in e[1..] && '/' !in e)
  }

  /** Python's `posixpath.splitext`: the extension is the text from the last
      dot of the last path component, provided that the dot is not part of the
      component's leading run of dots. */
  function SplitExt(p: string): (r: (string, string))
    ensures r.0 + r.1 == p
    ensures IsExtension(r.1)
  {
    var sep := LastIndexOf(p, '/');
    var dot := LastIndexOf(p, '.');
    if dot > sep && !AllDots(p[sep + 1..dot]) then CutAt(p, dot, sep) else (p, "")
  }

  /** Cuts `p` before its last dot, which comes after its last `/`. */
  function CutAt(p: string, dot: int, sep: int): (r: (string, string))
    requires -1 <= sep < dot < |p| && p[dot] == '.'
    requires forall i :: dot < i < |p| ==> p[i] != '.'
    requires forall i :: sep < i < |p| ==> p[i] != '/'
    ensures r.0 + r.1 == p && |r.0| == dot
    ensures IsExtension(r.1)
  {
    SuffixFree(p, dot, sep);
    (p[..dot], p[dot..])
  }

  /** The text from the last dot on holds no other dot, and no `/` when the
      last `/` comes before that dot. */
  lemma SuffixFree(p: string, dot: int, sep: int)
    requires -1 <= sep < dot < |p| && p[dot] == '.'
    requires forall i :: dot < i < |p| ==> p[i] != '.'
    requires forall i :: sep < i < |p| ==> p[i] != '/'
    ensures IsExtension(p[dot..])
  {
    var ext := p[dot..];
    assert forall i :: 0 <= i < |ext| ==> ext[i] == p[dot + i];
    assert forall i :: 0 <= i < |ext| - 1 ==> ext[1..][i] == p[dot + 1 + i];
  }

  /** Where the last `c` of a concatenation is. */
  lemma LastIndexOfAppend(a: string, b: string, c: char)
    ensures c in b ==> LastIndexOf(a + b, c) == |a| + LastIndexOf(b, c)
    ensures c !in b ==> LastIndexOf(a + b, c) == LastIndexOf(a, c)
  {
    var s := a + b;
    if c in b {
      var k := LastIndexOf(b, c);
      assert k >= 0;
      assert forall i :: |a| + k < i < |s| ==> s[i] == b[i - |a|];
      LastIndexOfAt(s, c, |a| + k);
    } else {
      var k := LastIndexOf(a, c);
      assert forall i :: |a| <= i < |s| ==> s[i] == b[i - |a|];
      LastIndexOfAt(s, c, k);
    }
  }

  /** The extension of `dir + stem + "." + ext` is `"." + ext` when the stem
      is not only dots and neither part holds a separator. */
  lemma SplitExtName(dir: string, stem: string, ext: string)
    requires dir == [] || dir[|dir| - 1] == '/'
    requires '/' !in stem && '/' !in ext && '.' !in ext
    requires !AllDots(stem)
    ensures SplitExt(dir + stem + "." + ext) == (dir + stem, "." + ext)
  {
    var dot := "." + ext;
    var p := (dir + stem) + dot;
    assert dir + stem + "." + ext == p;
    NameSeparators(dir, stem, ext);
    assert p[|dir|..|dir| + |stem|] == stem;
    assert p[..|dir| + |stem|] == dir + stem;
    assert p[|dir| + |stem|..] == dot;
  }

  /** In `dir + stem + "." + ext` the last dot is the one before `ext` and
      the last `/` ends `dir`. */
  lemma NameSeparators(dir: string, stem: string, ext: string)
    requires dir == [] || dir[|dir| - 1] == '/'
    requires '/' !in stem && '/' !in ext && '.' !in ext
    ensures LastIndexOf((dir + stem) + ("." + ext), '.') == |dir| + |stem|
    ensures LastIndexOf((dir + stem) + ("." + ext), '/') == |dir| - 1
  {
    var dot := "." + ext;
    LastIndexOfAppend(dir + stem, dot, '.');
    LastIndexOfAt(dot, '.', 0);
    LastIndexOfAppend(dir + stem, dot, '/');
    LastIndexOfAppend(dir, stem, '/');
    LastIndexOfAt(dir, '/', |dir| - 1);
  }

  /** Lower-casing keeps a run of dots a run of dots, and anything else
      anything else. */
  lemma LowerAllDots(s: string)
    ensures AllDots(Lower(s)) <==> AllDots(s)
  {
    if !AllDots(s) {
      var i :| 0 <= i < |s| && s[i] != '.';
      assert Lower(s)[i] != '.';
    }
  }

  /** `s.lstrip(".")` */
  function LStripDots(s: string): (r: string)
    ensures r == [] || r[0] != '.'
    ensures |r| <= |s| && r == s[|s| - |r|..]
  {
    if s != [] && s[0] == '.' then LStripDots(s[1..]) else s
  }

  /** `a` is a subsequence of `b`: `b` with some elements left out. */
  predicate IsSubsequence<T(==)>(a: seq<T>, b: seq<T>)
    decreases |b|
  {
    if a == [] then true
    else if b == [] then false
    else if a[|a| - 1] == b[|b| - 1] then IsSubsequence(a[..|a| - 1], b[..|b| - 1])
    else IsSubsequence(a, b[..|b| - 1])
  }

  /** A subsequence of a prefix is a subsequence of the whole. */
  lemma SubsequenceDropLast<T>(a: seq<T>, b: seq<T>)
    requires b != [] && IsSubsequence(a, b[..|b| - 1])
    ensures IsSubsequence(a, b)
    decreases |b|, 0
  {
    if a != [] && a[|a| - 1] == b[|b| - 1] {
      SubsequenceShrink(a, b[..|b| - 1]);
    }
  }

  /** Leaving out the last element of a subsequence gives a subsequence. */
  lemma {:induction false} SubsequenceShrink<T>(a: seq<T>, b: seq<T>)
    requires a != [] && IsSubsequence(a, b)
    ensures IsSubsequence(a[..|a| - 1], b)
    decreases |b|, 1
  {
    if b != [] {
      if a[|a| - 1] == b[|b| - 1] {
        SubsequenceDropLast(a[..|a| - 1], b);
      } else {
        SubsequenceShrink(a, b[..|b| - 1]);
        SubsequenceDropLast(a[..|a| - 1], b);
      }
    }
  }


  /** Position of the first `x` in `s`, or `|s|` when there is none. */
  function FirstIndex<T(==)>(s: seq<T>, x: T): (k: nat)
    ensures k <= |s|
    ensures k < |s| ==> s[k] == x
    ensures forall j :: 0 <= j < k ==> s[j] != x
  {
    if s == [] then 0 else if s[0] == x then 0 else 1 + FirstIndex(s[1..], x)
  }

  /** The first occurrence is the one with none before it. */
  lemma FirstIndexAt<T>(s: seq<T>, x: T, k: nat)
    requires k <= |s| && (k < |s| ==> s[k] == x)
    requires forall j :: 0 <= j < k ==> s[j] != x
    ensures FirstIndex(s, x) == k
  {
  }

  /** A prefix `r` of a suffix `t` of `s` is a slice of `s`, and what follows
      `r` in `s` is what follows it in `t`. */
  lemma PrefixOfSuffix<T>(s: seq<T>, t: seq<T>, r: seq<T>)
    requires |t| <= |s| && t == s[|s| - |t|..]
    requires |r| <= |t| && r == t[..|r|]
    ensures r == s[|s| - |t|..|s| - |t| + |r|]
    ensures forall i :: |s| - |t| + |r| <= i < |s| ==> s[i] == t[i - (|s| - |t|)]
  {
  }

  lemma AppendAssoc<T>(a: seq<T>, b: seq<T>, c: seq<T>)
    ensures a + (b + c) == (a + b) + c
  {
  }

  /** A sequence that agrees with `b` and then holds `x` is `b + [x]`. */
  lemma AppendOne<T>(a: seq<T>, b: seq<T>, x: T)
    requires |a| == |b| + 1 && a[|b|] == x
    requires forall k :: 0 <= k < |b| ==> a[k] == b[k]
    ensures a == b + [x]
  {
  }

  /** A scan that has seen no `x` before `i` and sees one at `i` has found
      the first occurrence. */
  lemma FirstIndexHere<T>(s: seq<T>, x: T, i: nat)
    requires i <= FirstIndex(s, x) && i < |s| && s[i] == x
    ensures FirstIndex(s, x) == i
  {
  }

  /** A scan that sees no `x` at `i` may move past it. */
  lemma FirstIndexPast<T>(s: seq<T>, x: T, i: nat)
    requires i <= FirstIndex(s, x) && i < |s| && s[i] != x
    ensures i + 1 <= FirstIndex(s, x)
  {
  }

  /** The first occurrence in a concatenation. */
  lemma FirstIndexAppend<T>(a: seq<T>, b: seq<T>, x: T)
    ensures x in a ==> FirstIndex(a + b, x) == FirstIndex(a, x)
    ensures x !in a ==> FirstIndex(a + b, x) == |a| + FirstIndex(b, x)
  {
    var s := a + b;
    if x in a {
      FirstIndexAt(s, x, FirstIndex(a, x));
    } else {
      var k := FirstIndex(b, x);
      assert forall j :: |a| <= j < |a| + k ==> s[j] == b[j - |a|];
      FirstIndexAt(s, x, |a| + k);
    }
  }

  /** Appending an element does not move the first occurrence of anything
      already present. */
  lemma FirstIndexInit<T>(init: seq<T>, x: T, y: T)
    requires y in init
    ensures FirstIndex(init + [x], y) == FirstIndex(init, y) < |init|
  {
    FirstIndexAppend(init, [x], y);
  }

  /** Stripping twice is stripping once. */
  lemma StripIdempotent(s: string)
    ensures Strip(Strip(s)) == Strip(s)
  {
    var r := Strip(s);
    assert StripLeft(r) == r;
    assert StripRight(r) == r;
  }

  /** Every element of a subsequence occurs in the whole. */
  lemma {:induction false} SubsequenceMember<T>(a: seq<T>, b: seq<T>, i: nat)
    requires IsSubsequence(a, b) && i < |a|
    ensures a[i] in b
    decreases |b|
  {
    if a[|a| - 1] == b[|b| - 1] {
      if i < |a| - 1 {
        SubsequenceMember(a[..|a| - 1], b[..|b| - 1], i);
      }
    } else {
      SubsequenceMember(a, b[..|b| - 1], i);
    }
  }

  /** The concatenation of `f` over `s`, left to right. */
  function FlatMap<T, U>(s: seq<T>, f: T -> seq<U>): seq<U>
  {
    if s == [] then [] else FlatMap(s[..|s| - 1], f) + f(s[|s| - 1])
  }

  lemma {:induction false} FlatMapAppend<T, U>(a: seq<T>, b: seq<T>, f: T -> seq<U>)
    ensures FlatMap(a + b, f) == FlatMap(a, f) + FlatMap(b, f)
  {
    if b == [] {
      assert a + b == a;
    } else {
      var ab, b' := a + b, b[..|b| - 1];
      assert ab[..|ab| - 1] == a + b' && ab[|ab| - 1] == b[|b| - 1];
      FlatMapAppend(a, b', f);
    }
  }

  /** Digits without a leading zero are the rendering of their value. */
  lemma {:induction false} DigitsDecimal(s: string)
    requires IsDigits(s) && s[0] != '0'
    ensures Decimal(DigitsValue(s)) == s
  {
    var init, c := s[..|s| - 1], s[|s| - 1];
    var n := DigitsValue(s);
    assert n == 10 * DigitsValue(init) + DigitValue(c);
    if init == [] {
      assert DigitChar(DigitValue(c)) == c;
    } else {
      assert init[0] == s[0];
      DigitsDecimal(init);
      var v, d := DigitsValue(init), DigitValue(c);
      assert v != 0;
      Div10(n, v, d);
      assert Decimal(n) == Decimal(v) + [DigitChar(d)];
      assert DigitChar(d) == c;
      assert s == init + [c];
    }
  }

  /** Dividing `10 * v + d` by 10, for a digit `d`. */
  lemma Div10(n: nat, v: nat, d: nat)
    requires d < 10 && n == 10 * v + d
    ensures n / 10 == v && n % 10 == d
  {
  }
}
