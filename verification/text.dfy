/** Text primitives the program borrows from Rust's `str` and SQLite:
    Unicode whitespace trimming, UTF-8 byte length, lower-casing, and the `LIKE` operator. */
module Text {

  /** Rust's `char::is_whitespace`: the Unicode White_Space property. */
  predicate IsWhitespace(c: char) {
    || ('\t' <= c <= '\r')
    || c == ' '
    || c == '\U{0085}'
    || c == '\U{00A0}'
    || c == '\U{1680}'
    || ('\U{2000}' <= c <= '\U{200A}')
    || c == '\U{2028}'
    || c == '\U{2029}'
    || c == '\U{202F}'
    || c == '\U{205F}'
    || c == '\U{3000}'
  }

  /** `str::trim_start`: the suffix left after dropping the longest whitespace prefix. */
  function TrimStart(s: string): (r: string)
    ensures |r| <= |s| && r == s[|s| - |r|..]
    ensures forall k :: 0 <= k < |s| - |r| ==> IsWhitespace(s[k])
    ensures |r| == 0 || !IsWhitespace(r[0])
  {
    if |s| > 0 && IsWhitespace(s[0]) then TrimStart(s[1..]) else s
  }

  /** `str::trim_end`: the prefix left after dropping the longest whitespace suffix. */
  function TrimEnd(s: string): (r: string)
    ensures |r| <= |s| && r == s[..|r|]
    ensures forall k :: |r| <= k < |s| ==> IsWhitespace(s[k])
    ensures |r| == 0 || !IsWhitespace(r[|r| - 1])
  {
    if |s| > 0 && IsWhitespace(s[|s| - 1]) then TrimEnd(s[..|s| - 1]) else s
  }

  /** `str::trim`. */
  function Trim(s: string): (r: string)
    ensures |r| <= |s|
    ensures |r| == 0 || (!IsWhitespace(r[0]) && !IsWhitespace(r[|r| - 1]))
  {
    TrimEnd(TrimStart(s))
  }

  /** `s.trim().is_empty()`. */
  predicate IsBlank(s: string) {
    |Trim(s)| == 0
  }

  /** A string is blank exactly when every character of it is whitespace. */
  lemma BlankIffAllWhitespace(s: string)
    ensures IsBlank(s) <==> forall k :: 0 <= k < |s| ==> IsWhitespace(s[k])
  {
    var a := TrimStart(s);
    if !(forall k :: 0 <= k < |s| ==> IsWhitespace(s[k])) {
      assert |a| > 0 && !IsWhitespace(a[0]);
    }
  }

  /** Trimming is idempotent. */
  lemma TrimIdempotent(s: string)
    ensures Trim(Trim(s)) == Trim(s)
  {
    var r := Trim(s);
    assert TrimStart(r) == r;
    assert TrimEnd(r) == r;
  }

  /** Number of bytes of `c` in UTF-8. */
  function Utf8Width(c: char): (n: nat)
    ensures 1 <= n <= 4
  {
    if c as int < 0x80 then 1
    else if c as int < 0x800 then 2
    else if c as int < 0x1_0000 then 3
    else 4
  }

  /** Rust's `str::len`: the length of the UTF-8 encoding, in bytes. */
  function Utf8Len(s: string): (n: nat)
    ensures |s| <= n <= 4 * |s|
  {
    if |s| == 0 then 0 else Utf8Width(s[0]) + Utf8Len(s[1..])
  }

  /** Byte length is additive over concatenation. */
  lemma {:induction false} Utf8LenAppend(a: string, b: string)
    ensures Utf8Len(a + b) == Utf8Len(a) + Utf8Len(b)
    decreases |a|
  {
    if |a| > 0 {
      assert (a + b)[1..] == a[1..] + b;
      Utf8LenAppend(a[1..], b);
    } else {
      assert a + b == b;
    }
  }

  /** On ASCII text the byte length is the character count. */
  lemma {:induction false} Utf8LenAscii(s: string)
    requires forall k :: 0 <= k < |s| ==> s[k] as int < 0x80
    ensures Utf8Len(s) == |s|
    decreases |s|
  {
    if |s| > 0 {
      Utf8LenAscii(s[1..]);
    }
  }

  /** Lower case in Basic Latin, Latin-1 and Latin Extended-A (below U+0180). */
  function LowerLatin(n: int): int {
    if 0x41 <= n <= 0x5A || (0xC0 <= n <= 0xDE && n != 0xD7) then n + 0x20
    else if n % 2 == 0 && (0x100 <= n <= 0x12F || 0x132 <= n <= 0x137 || 0x14A <= n <= 0x177) then n + 1
    else if n % 2 == 1 && (0x139 <= n <= 0x148 || 0x179 <= n <= 0x17E) then n + 1
    else if n == 0x178 then 0xFF
    else n
  }

  /** Lower case in Greek and Cyrillic (U+0370 to U+052F). */
  function LowerGreekCyrillic(n: int): int {
    if (0x391 <= n <= 0x3AB && n != 0x3A2) || 0x410 <= n <= 0x42F then n + 0x20
    else if 0x400 <= n <= 0x40F then n + 0x50
    else if n == 0x386 then 0x3AC
    else if 0x388 <= n <= 0x38A then n + 0x25
    else if n == 0x38C then 0x3CC
    else if 0x38E <= n <= 0x38F then n + 0x3F
    else if n % 2 == 0 && (0x460 <= n <= 0x481 || 0x48A <= n <= 0x4BF || 0x4D0 <= n <= 0x52F) then n + 1
    else if n % 2 == 1 && 0x4C1 <= n <= 0x4CE then n + 1
    else if n == 0x4C0 then 0x4CF
    else n
  }

  /** Lower case in Armenian and Latin Extended Additional. */
  function LowerArmenianLatinAdditional(n: int): int {
    if 0x531 <= n <= 0x556 then n + 0x30
    else if n % 2 == 0 && (0x1E00 <= n <= 0x1E95 || 0x1EA0 <= n <= 0x1EFF) then n + 1
    else if n == 0x1E9E then 0xDF
    else n
  }

  /** Lower case of the letter-like symbols and the full-width Latin capitals. */
  function LowerSymbols(n: int): int {
    if 0xFF21 <= n <= 0xFF3A then n + 0x20
    else if n == 0x2126 then 0x3C9
    else if n == 0x212A then 0x6B
    else if n == 0x212B then 0xE5
    else n
  }

  /** The code point `char::to_lowercase` yields for `n` when it yields a single
      character; every other code point is its own lower case. */
  function LowerPoint(n: int): int {
    if n < 0x180 then LowerLatin(n)
    else if n < 0x530 then LowerGreekCyrillic(n)
    else if n < 0x2000 then LowerArmenianLatinAdditional(n)
    else LowerSymbols(n)
  }

  lemma LatinFixed(n: int)
    requires n < 0x180
    ensures LowerLatin(n) < 0x180 && LowerLatin(LowerLatin(n)) == LowerLatin(n)
  {
  }

  lemma GreekCyrillicFixed(n: int)
    requires 0x180 <= n < 0x530
    ensures 0x180 <= LowerGreekCyrillic(n) < 0x530
    ensures LowerGreekCyrillic(LowerGreekCyrillic(n)) == LowerGreekCyrillic(n)
  {
  }

  lemma ArmenianLatinAdditionalFixed(n: int)
    requires 0x530 <= n < 0x2000
    ensures var l := LowerArmenianLatinAdditional(n);
      (0x530 <= l < 0x2000 && LowerArmenianLatinAdditional(l) == l) || l == 0xDF
  {
  }

  /** A lower case is its own lower case, and it is a character again. */
  lemma LowerPointFixed(n: int)
    requires 0 <= n < 0xD800 || 0xE000 <= n < 0x11_0000
    ensures LowerPoint(LowerPoint(n)) == LowerPoint(n)
    ensures 0 <= LowerPoint(n) < 0xD800 || 0xE000 <= LowerPoint(n) < 0x11_0000
  {
    if n < 0x180 {
      LatinFixed(n);
    } else if n < 0x530 {
      GreekCyrillicFixed(n);
    } else if n < 0x2000 {
      ArmenianLatinAdditionalFixed(n);
    }
  }

  /** Upper-case letters that `char::to_lowercase` maps to one other character. */
  predicate IsUpperSimple(c: char) {
    LowerPoint(c as int) != c as int
  }

  /** `char::to_lowercase` on the letters it maps one-to-one. */
  function LowerChar(c: char): (l: char)
    ensures !IsUpperSimple(c) ==> l == c
    ensures 'A' <= c <= 'Z' ==> l as int == c as int + 0x20
  {
    LowerPointFixed(c as int);
    LowerPoint(c as int) as char
  }

  /** A lower-cased letter is no longer upper case. */
  lemma LowerCharLowers(c: char)
    ensures !IsUpperSimple(LowerChar(c))
  {
    LowerPointFixed(c as int);
  }

  /** `str::to_lowercase`, character by character. */
  function ToLower(s: string): (r: string)
    ensures |r| == |s|
    ensures forall k :: 0 <= k < |s| ==> r[k] == LowerChar(s[k])
  {
    seq(|s|, k requires 0 <= k < |s| => LowerChar(s[k]))
  }

  /** Lower-casing twice is lower-casing once. */
  lemma ToLowerIdempotent(s: string)
    ensures ToLower(ToLower(s)) == ToLower(s)
  {
    forall k | 0 <= k < |s|
      ensures LowerChar(LowerChar(s[k])) == LowerChar(s[k])
    {
      LowerCharLowers(s[k]);
    }
  }

  /** The Kelvin sign, the Latin ligature Œ and the Cyrillic capitals fold onto the
      letters they stand for. */
  lemma ToLowerBeyondLatin1()
    ensures ToLower("\U{212A}g") == "kg"
    ensures ToLower("\U{0152}") == ToLower("\U{0153}")
    ensures ToLower("\U{041C}\U{041B}") == "\U{043C}\U{043B}"
  {
  }

  /** SQLite folds only ASCII letters when it compares under `LIKE`. */
  function FoldAscii(c: char): char {
    if 'A' <= c <= 'Z' then (c as int + 0x20) as char else c
  }

  /** SQLite's `text LIKE pattern` without an ESCAPE clause: `%` matches any run of
      characters, `_` any single character, and other characters match up to ASCII case. */
  predicate Like(pattern: string, text: string)
    decreases |pattern| + |text|
  {
    if |pattern| == 0 then |text| == 0
    else if pattern[0] == '%' then
      Like(pattern[1..], text) || (|text| > 0 && Like(pattern, text[1..]))
    else
      && |text| > 0
      && (pattern[0] == '_' || FoldAscii(pattern[0]) == FoldAscii(text[0]))
      && Like(pattern[1..], text[1..])
  }

  /** `format!("%{}%", term)`: the pattern the repositories build for a search term. */
  function ContainsPattern(term: string): string {
    "%" + term + "%"
  }

  /** A pattern of a single `%` matches every text. */
  lemma {:induction false} LikePercentMatchesAll(t: string)
    ensures Like("%", t)
    decreases |t|
  {
    if |t| > 0 {
      LikePercentMatchesAll(t[1..]);
    }
  }

  /** A pattern matches itself followed by anything when it ends in `%`. */
  lemma {:induction false} LikePrefix(w: string, rest: string)
    requires forall k :: 0 <= k < |w| ==> w[k] != '%'
    ensures Like(w + "%", w + rest)
    decreases |w|
  {
    if |w| == 0 {
      assert w + "%" == "%";
      assert w + rest == rest;
      LikePercentMatchesAll(rest);
    } else {
      assert (w + "%")[1..] == w[1..] + "%";
      assert (w + rest)[1..] == w[1..] + rest;
      LikePrefix(w[1..], rest);
    }
  }

  /** A leading `%` may skip any prefix of the text. */
  lemma {:induction false} LikeSkip(p: string, pre: string, t: string)
    requires Like(p, t)
    ensures Like("%" + p, pre + t)
    decreases |pre|
  {
    if |pre| == 0 {
      assert pre + t == t;
      assert ("%" + p)[1..] == p;
    } else {
      LikeSkip(p, pre[1..], t);
      assert (pre + t)[1..] == pre[1..] + t;
    }
  }

  /** Every text that contains `term` literally matches the repositories' search pattern. */
  lemma SubstringMatchesContainsPattern(term: string, pre: string, post: string)
    requires forall k :: 0 <= k < |term| ==> term[k] != '%'
    ensures Like(ContainsPattern(term), pre + term + post)
  {
    LikePrefix(term, post);
    LikeSkip(term + "%", pre, term + post);
    assert "%" + (term + "%") == ContainsPattern(term);
    assert pre + (term + post) == pre + term + post;
  }
}
