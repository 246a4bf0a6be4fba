/**
 * The JavaScript string primitives the extractor relies on, over Dafny strings
 * (sequences of Unicode scalar values): the regular-expression character
 * classes `\s`, `\w`, `\d`, `[^\n]` and `.`, `String.prototype.trim`,
 * ASCII `toLowerCase`, `parseInt` on a run of decimal digits, and
 * `encodeURIComponent` followed by `.replace(/[^a-zA-Z0-9]/g, '')`.
 */
module JsText {

  // ---------------------------------------------------------------------------
  // Character classes
  // ---------------------------------------------------------------------------

  /** ECMAScript WhiteSpace or LineTerminator: what `\s` matches and what `trim` removes. */
  predicate IsSpace(c: char) {
    var n := c as int;
    || n == 0x09 || n == 0x0A || n == 0x0B || n == 0x0C || n == 0x0D || n == 0x20
    || n == 0xA0 || n == 0x1680 || (0x2000 <= n <= 0x200A) || n == 0x2028 || n == 0x2029
    || n == 0x202F || n == 0x205F || n == 0x3000 || n == 0xFEFF
  }

  /** The characters `.` refuses to match. */
  predicate IsLineTerminator(c: char) {
    c == '\n' || c == '\r' || c as int == 0x2028 || c as int == 0x2029
  }

  predicate IsDigit(c: char) {
    '0' <= c <= '9'
  }

  predicate IsAsciiLetter(c: char) {
    ('A' <= c <= 'Z') || ('a' <= c <= 'z')
  }

  /** `[a-zA-Z0-9]` */
  predicate IsAlnum(c: char) {
    IsAsciiLetter(c) || IsDigit(c)
  }

  /** `\w` (no `u` flag, so ASCII only) */
  predicate IsWordChar(c: char) {
    IsAlnum(c) || c == '_'
  }

  /** Every character of `s` is in `[a-zA-Z0-9]`. */
  predicate IsAlnumString(s: string) {
    forall i :: 0 <= i < |s| ==> IsAlnum(s[i])
  }

  datatype CharClass =
    | Space              // \s
    | Word               // \w
    | Digit              // \d
    | NotNewline         // [^\n]
    | NotLineTerminator  // .

  predicate InClass(c: char, cls: CharClass) {
    match cls
    case Space => IsSpace(c)
    case Word => IsWordChar(c)
    case Digit => IsDigit(c)
    case NotNewline => c != '\n'
    case NotLineTerminator => !IsLineTerminator(c)
  }

  /** Every character of `s[i..j]` is in `cls`. */
  predicate AllInRange(s: string, i: int, j: int, cls: CharClass)
    requires 0 <= i <= j <= |s|
  {
    forall k :: i <= k < j ==> InClass(s[k], cls)
  }

  predicate AllIn(s: string, cls: CharClass) {
    AllInRange(s, 0, |s|, cls)
  }

  /** The end of the longest run of `cls` characters that starts at `i`: a greedy `cls*`. */
  function Span(s: string, i: nat, cls: CharClass): (j: nat)
    requires i <= |s|
    ensures i <= j <= |s|
    ensures AllInRange(s, i, j, cls)
    ensures j < |s| ==> !InClass(s[j], cls)
    decreases |s| - i
  {
    if i < |s| && InClass(s[i], cls) then Span(s, i + 1, cls) else i
  }

  /** No run of `cls` from `i` reaches past `Span`, and `Span` stops at the first character outside `cls`. */
  lemma SpanIsLongest(s: string, i: nat, j: nat, cls: CharClass)
    requires i <= j <= |s|
    ensures AllInRange(s, i, j, cls) ==> j <= Span(s, i, cls)
    ensures j < |s| && !InClass(s[j], cls) ==> Span(s, i, cls) <= j
    decreases j - i
  {
    if i < j && InClass(s[i], cls) {
      SpanIsLongest(s, i + 1, j, cls);
    }
  }

  /** The start of the longest run of `cls` characters that ends at `hi` and stays at or after `lo`. */
  function SpanBack(s: string, lo: nat, hi: nat, cls: CharClass): (j: nat)
    requires lo <= hi <= |s|
    ensures lo <= j <= hi
    ensures AllInRange(s, j, hi, cls)
    ensures lo < j ==> !InClass(s[j - 1], cls)
    decreases hi
  {
    if lo < hi && InClass(s[hi - 1], cls) then SpanBack(s, lo, hi - 1, cls) else hi
  }

  // ---------------------------------------------------------------------------
  // trim
  // ---------------------------------------------------------------------------

  /** `String.prototype.trim`: the middle of `s` once leading and trailing whitespace are cut off. */
  function Trim(s: string): (r: string)
    ensures var i := Span(s, 0, Space);
            i + |r| <= |s| && r == s[i..i + |r|] && AllInRange(s, i + |r|, |s|, Space)
    ensures r == [] <==> AllIn(s, Space)
    ensures r != [] ==> !IsSpace(r[0]) && !IsSpace(r[|r| - 1])
    ensures (s == [] || (!IsSpace(s[0]) && !IsSpace(s[|s| - 1]))) ==> r == s
  {
    var i := Span(s, 0, Space);
    var j := SpanBack(s, i, |s|, Space);
    assert i < |s| ==> i < j;
    assert AllInRange(s, j, |s|, Space);
    s[i..j]
  }

  /** Trimming keeps a character class that the whole string is in. */
  lemma TrimKeepsClass(s: string, cls: CharClass)
    requires AllIn(s, cls)
    ensures AllIn(Trim(s), cls)
  {
    var r := Trim(s);
    var i := Span(s, 0, Space);
    forall k | 0 <= k < |r|
      ensures InClass(r[k], cls)
    {
      assert r[k] == s[i + k];
    }
  }

  // ---------------------------------------------------------------------------
  // toLowerCase
  // ---------------------------------------------------------------------------

  function LowerChar(c: char): (r: char)
    ensures !('A' <= r <= 'Z')
  {
    if 'A' <= c <= 'Z' then (c as int + 32) as char else c
  }

  /** `toLowerCase` on the ASCII letters; every other character is kept. */
  function ToLowerAscii(s: string): (r: string)
    ensures |r| == |s|
    ensures forall i :: 0 <= i < |s| ==> r[i] == LowerChar(s[i])
  {
    seq(|s|, i requires 0 <= i < |s| => LowerChar(s[i]))
  }

  /** `lit` (already lower case) occurs at `s[i..]` when both are compared case-insensitively. */
  predicate LiteralAt(s: string, i: nat, lit: string) {
    i + |lit| <= |s| && ToLowerAscii(s[i..i + |lit|]) == lit
  }

  // ---------------------------------------------------------------------------
  // parseInt on decimal digits
  // ---------------------------------------------------------------------------

  function Pow10(n: nat): (r: nat)
    ensures r >= 1
  {
    if n == 0 then 1 else 10 * Pow10(n - 1)
  }

  function DigitValue(c: char): (d: nat)
    requires IsDigit(c)
    ensures d < 10
  {
    c as int - '0' as int
  }

  /** `parseInt(s)` for a string of decimal digits: its value, below 10 to the power of its length. */
  function ParseDigits(s: string): (n: nat)
    requires s != [] && AllIn(s, Digit)
    ensures n < Pow10(|s|)
    ensures |s| == 1 ==> n == DigitValue(s[0])
  {
    if |s| == 1 then DigitValue(s[0])
    else
      var prefix := ParseDigits(s[..|s| - 1]);
      assert prefix <= Pow10(|s| - 1) - 1;
      assert prefix * 10 <= Pow10(|s|) - 10;
      prefix * 10 + DigitValue(s[|s| - 1])
  }

  lemma ShiftDigit(x: int, p: int, y: int, d: int)
    ensures (x * p + y) * 10 + d == x * (p * 10) + (y * 10 + d)
  {
  }

  /**
   * `parseInt` reads its digits in base 10, most significant first: the
   * digits of `a` are worth `10^|b|` times as much as they are on their own.
   */
  lemma {:induction false} ParseDigitsAppend(a: string, b: string)
    requires a != [] && AllIn(a, Digit)
    requires b != [] && AllIn(b, Digit)
    ensures AllIn(a + b, Digit)
    ensures ParseDigits(a + b) == ParseDigits(a) * Pow10(|b|) + ParseDigits(b)
    decreases |b|
  {
    var ab := a + b;
    assert AllIn(ab, Digit) by {
      forall k | 0 <= k < |ab| ensures InClass(ab[k], Digit) {
        if k >= |a| { assert ab[k] == b[k - |a|]; }
      }
    }
    var last := DigitValue(b[|b| - 1]);
    assert ab[|ab| - 1] == b[|b| - 1];
    if |b| == 1 {
      assert ab[..|ab| - 1] == a;
    } else {
      var init := b[..|b| - 1];
      assert AllIn(init, Digit);
      assert ab[..|ab| - 1] == a + init;
      ParseDigitsAppend(a, init);
      var x, y := ParseDigits(a), ParseDigits(init);
      assert ParseDigits(ab) == ParseDigits(a + init) * 10 + last;
      assert ParseDigits(b) == y * 10 + last by {
        assert b[..|b| - 1] == init;
      }
      ShiftDigit(x, Pow10(|init|), y, last);
    }
  }

  // ---------------------------------------------------------------------------
  // encodeURIComponent and the strip of everything but [a-zA-Z0-9]
  // ---------------------------------------------------------------------------

  /** The characters `encodeURIComponent` leaves as they are. */
  predicate IsUriUnreserved(c: char) {
    IsAlnum(c) || c in "-_.!~*'()"
  }

  function HexDigit(n: nat): (c: char)
    requires n < 16
    ensures IsAlnum(c)
  {
    "0123456789ABCDEF"[n]
  }

  /** The UTF-8 encoding of one Unicode scalar value (RFC 3629, section 3). */
  function Utf8(c: char): (bytes: seq<nat>)
    ensures 1 <= |bytes| <= 4
    ensures forall i :: 0 <= i < |bytes| ==> bytes[i] < 256
    ensures c as int < 0x80 ==> bytes == [c as int]
  {
    var n := c as int;
    if n < 0x80 then [n]
    else if n < 0x800 then [0xC0 + n / 64, 0x80 + n % 64]
    else if n < 0x10000 then [0xE0 + n / 4096, 0x80 + (n / 64) % 64, 0x80 + n % 64]
    else [0xF0 + n / 262144, 0x80 + (n / 4096) % 64, 0x80 + (n / 64) % 64, 0x80 + n % 64]
  }

  /** `%XY` for each byte, with upper-case hexadecimal digits. */
  function PercentEncode(bytes: seq<nat>): (r: string)
    requires forall i :: 0 <= i < |bytes| ==> bytes[i] < 256
    ensures |r| == 3 * |bytes|
  {
    if bytes == [] then []
    else ['%', HexDigit(bytes[0] / 16), HexDigit(bytes[0] % 16)] + PercentEncode(bytes[1..])
  }

  /** Byte `k` of the input becomes the three characters at `3 * k`: `%` and its two hexadecimal digits. */
  lemma {:induction false} PercentEncodeBytes(bytes: seq<nat>)
    requires forall i :: 0 <= i < |bytes| ==> bytes[i] < 256
    ensures forall k :: 0 <= k < |bytes| ==>
              PercentEncode(bytes)[3 * k..3 * k + 3] == ['%', HexDigit(bytes[k] / 16), HexDigit(bytes[k] % 16)]
  {
    if bytes != [] {
      var head := ['%', HexDigit(bytes[0] / 16), HexDigit(bytes[0] % 16)];
      var tail := bytes[1..];
      var rest := PercentEncode(tail);
      PercentEncodeBytes(tail);
      assert PercentEncode(bytes) == head + rest;
      forall k | 0 <= k < |bytes|
        ensures PercentEncode(bytes)[3 * k..3 * k + 3] == ['%', HexDigit(bytes[k] / 16), HexDigit(bytes[k] % 16)]
      {
        if k > 0 {
          var m := k - 1;
          assert tail[m] == bytes[k];
          assert 3 * k == 3 + 3 * m;
          assert (head + rest)[3 + 3 * m..3 + 3 * m + 3] == rest[3 * m..3 * m + 3];
        }
      }
    }
  }

  /** One character of `encodeURIComponent`: kept when unreserved, else its UTF-8 bytes percent-encoded. */
  function EncodeUriChar(c: char): (r: string)
    ensures IsUriUnreserved(c) ==> r == [c]
    ensures !IsUriUnreserved(c) ==> r == PercentEncode(Utf8(c)) && 3 <= |r| <= 12
  {
    if IsUriUnreserved(c) then [c] else PercentEncode(Utf8(c))
  }

  /**
   * `encodeURIComponent(s)`; a Dafny string holds no lone surrogate, so it
   * never throws. A single character is encoded on its own, an all-unreserved
   * string comes back unchanged, and the encoding is never shorter.
   */
  function EncodeUriComponent(s: string): (r: string)
    ensures |s| == 1 ==> r == EncodeUriChar(s[0])
    ensures (forall i :: 0 <= i < |s| ==> IsUriUnreserved(s[i])) ==> r == s
    ensures |r| >= |s|
  {
    if s == [] then [] else EncodeUriChar(s[0]) + EncodeUriComponent(s[1..])
  }

  /** The encoding works character by character, so it distributes over concatenation. */
  lemma {:induction false} EncodeDistributes(a: string, b: string)
    ensures EncodeUriComponent(a + b) == EncodeUriComponent(a) + EncodeUriComponent(b)
  {
    if a == [] {
      assert a + b == b;
    } else {
      assert (a + b)[0] == a[0];
      assert (a + b)[1..] == a[1..] + b;
      EncodeDistributes(a[1..], b);
    }
  }

  /** `s.replace(/[^a-zA-Z0-9]/g, '')`: the ASCII letters and digits of `s`, in order. */
  function StripNonAlnum(s: string): (r: string)
    ensures IsAlnumString(r)
    ensures |r| <= |s|
    ensures IsAlnumString(s) ==> r == s
    ensures |s| == 1 ==> r == (if IsAlnum(s[0]) then s else [])
  {
    if s == [] then []
    else (if IsAlnum(s[0]) then [s[0]] else []) + StripNonAlnum(s[1..])
  }

  /** The strip works character by character, so it distributes over concatenation. */
  lemma {:induction false} StripDistributes(a: string, b: string)
    ensures StripNonAlnum(a + b) == StripNonAlnum(a) + StripNonAlnum(b)
  {
    if a == [] {
      assert a + b == b;
    } else {
      var ab := a + b;
      assert ab[0] == a[0];
      assert ab[1..] == a[1..] + b;
      StripDistributes(a[1..], b);
      var kept := if IsAlnum(a[0]) then [a[0]] else [];
      assert StripNonAlnum(ab) == kept + StripNonAlnum(a[1..] + b);
      assert StripNonAlnum(a) == kept + StripNonAlnum(a[1..]);
      assert kept + (StripNonAlnum(a[1..]) + StripNonAlnum(b)) == (kept + StripNonAlnum(a[1..])) + StripNonAlnum(b);
    }
  }
}
