/**
 * Text helpers shared by the models of the TypeScript and Python sources.
 *
 * A `string` here is a `seq<char>`, one char per Unicode scalar value, which
 * is what Python's `len` counts. JavaScript's `.length` and `.slice` count
 * UTF-16 code units, where a character outside the Basic Multilingual Plane
 * takes two: `Utf16Length` and `Utf16Take` count that way.
 */
module Text {

  /** The characters JavaScript's `String.prototype.trim` and the regex class
      `\s` treat as white space: WhiteSpace and LineTerminator of ECMAScript. */
  predicate IsJsSpace(c: char) {
    || c == '\t' || c == '\n' || c == '\U{B}' || c == '\U{C}' || c == '\r'
    || c == ' ' || c == '\U{A0}' || c == '\U{1680}'
    || ('\U{2000}' <= c <= '\U{200A}')
    || c == '\U{2028}' || c == '\U{2029}' || c == '\U{202F}' || c == '\U{205F}'
    || c == '\U{3000}' || c == '\U{FEFF}'
  }

  /** The characters Python's `str.strip()` (no argument) removes. */
  predicate IsPySpace(c: char) {
    || c == '\t' || c == '\n' || c == '\U{B}' || c == '\U{C}' || c == '\r'
    || ('\U{1C}' <= c <= '\U{1F}') || c == ' ' || c == '\U{85}' || c == '\U{A0}'
    || c == '\U{1680}' || ('\U{2000}' <= c <= '\U{200A}')
    || c == '\U{2028}' || c == '\U{2029}' || c == '\U{202F}' || c == '\U{205F}'
    || c == '\U{3000}'
  }

  predicate IsDigit(c: char) {
    '0' <= c <= '9'
  }

  predicate AllDigits(s: string) {
    forall k :: 0 <= k < |s| ==> IsDigit(s[k])
  }

  // ---------------------------------------------------------------------------
  // Trimming
  // ---------------------------------------------------------------------------

  /** The length of the longest prefix of `s` made of space characters. */
  function LeadingCount(s: string, isSpace: char -> bool): (n: nat)
    ensures n <= |s|
    ensures forall k :: 0 <= k < n ==> isSpace(s[k])
    ensures n < |s| ==> !isSpace(s[n])
  {
    if |s| == 0 || !isSpace(s[0]) then 0 else 1 + LeadingCount(s[1..], isSpace)
  }

  /** The length of the longest suffix of `s` made of space characters. */
  function TrailingCount(s: string, isSpace: char -> bool): (n: nat)
    ensures n <= |s|
    ensures forall k :: |s| - n <= k < |s| ==> isSpace(s[k])
    ensures n < |s| ==> !isSpace(s[|s| - n - 1])
  {
    if |s| == 0 || !isSpace(s[|s| - 1]) then 0 else 1 + TrailingCount(s[..|s| - 1], isSpace)
  }

  /** Removal of the space characters at both ends. */
  function Trim(s: string, isSpace: char -> bool): (r: string)
    ensures |r| <= |s|
    ensures r == [] <==> forall k :: 0 <= k < |s| ==> isSpace(s[k])
    ensures r != [] ==> !isSpace(r[0]) && !isSpace(r[|r| - 1])
  {
    var a := LeadingCount(s, isSpace);
    var t := s[a..];
    var b := TrailingCount(t, isSpace);
    TrimParts(s, isSpace, a, t, b);
    t[..|t| - b]
  }

  /** The facts about the text `Trim` keeps, stated on its parts. */
  lemma TrimParts(s: string, isSpace: char -> bool, a: nat, t: string, b: nat)
    requires a == LeadingCount(s, isSpace) && t == s[a..] && b == TrailingCount(t, isSpace)
    ensures var r := t[..|t| - b];
      && a + |r| <= |s|
      && r == s[a..a + |r|]
      && (forall k :: a + |r| <= k < |s| ==> isSpace(s[k]))
      && (r == [] <==> forall k :: 0 <= k < |s| ==> isSpace(s[k]))
      && (r != [] ==> !isSpace(r[0]) && !isSpace(r[|r| - 1]))
  {
    var r := t[..|t| - b];
    assert r == s[a..a + |r|];
    TrailingSpaces(s, isSpace, a, t, b);
    if r == [] {
      assert forall k :: 0 <= k < a ==> isSpace(s[k]);
    } else {
      assert r[0] == s[a];
      assert r[|r| - 1] == t[|t| - b - 1];
    }
    assert a < |s| ==> !isSpace(s[a]);
  }

  lemma TrailingSpaces(s: string, isSpace: char -> bool, a: nat, t: string, b: nat)
    requires a <= |s| && t == s[a..] && b <= |t|
    requires forall j :: |t| - b <= j < |t| ==> isSpace(t[j])
    ensures forall k :: a + |t| - b <= k < |s| ==> isSpace(s[k])
  {
    forall k | a + |t| - b <= k < |s| ensures isSpace(s[k]) {
      var j := k - a;
      assert t[j] == s[k];
    }
  }

  /** What trimming keeps is the text between the leading and the trailing
      run of space characters. */
  lemma TrimIsInfix(s: string, isSpace: char -> bool)
    ensures var r := Trim(s, isSpace); var a := LeadingCount(s, isSpace);
      && a + |r| <= |s|
      && r == s[a..a + |r|]
      && forall k :: a + |r| <= k < |s| ==> isSpace(s[k])
  {
    var a := LeadingCount(s, isSpace);
    var t := s[a..];
    var b := TrailingCount(t, isSpace);
    TrimParts(s, isSpace, a, t, b);
    assert Trim(s, isSpace) == t[..|t| - b];
  }

  /** JavaScript `s.trim()`. */
  function JsTrim(s: string): (r: string)
    ensures |r| <= |s|
    ensures r == [] <==> forall k :: 0 <= k < |s| ==> IsJsSpace(s[k])
  {
    Trim(s, IsJsSpace)
  }

  /** Python `s.strip()`. */
  function PyStrip(s: string): (r: string)
    ensures |r| <= |s|
  {
    Trim(s, IsPySpace)
  }

  /** Trimming twice is trimming once. */
  lemma TrimIdempotent(s: string, isSpace: char -> bool)
    ensures Trim(Trim(s, isSpace), isSpace) == Trim(s, isSpace)
  {
    var r := Trim(s, isSpace);
    if r != [] {
      assert LeadingCount(r, isSpace) == 0;
      assert TrailingCount(r, isSpace) == 0;
    }
  }

  /** Trimming removes only space characters: when the text has a non-space
      character at each end it is left as it is. */
  lemma TrimKeepsSolidText(s: string, isSpace: char -> bool)
    requires s != [] && !isSpace(s[0]) && !isSpace(s[|s| - 1])
    ensures Trim(s, isSpace) == s
  {
    assert LeadingCount(s, isSpace) == 0;
    assert TrailingCount(s, isSpace) == 0;
  }

  /** The text after its leading run of space characters: the effect of a
      regex `^\s*` replaced by nothing. */
  function DropLeading(s: string, isSpace: char -> bool): (r: string)
    ensures |r| <= |s| && r == s[|s| - |r|..]
    ensures r != [] ==> !isSpace(r[0])
  {
    s[LeadingCount(s, isSpace)..]
  }

  /** Trimming after dropping the leading spaces is just trimming. */
  lemma TrimAfterDropLeading(s: string, isSpace: char -> bool)
    ensures Trim(DropLeading(s, isSpace), isSpace) == Trim(s, isSpace)
  {
    var t := DropLeading(s, isSpace);
    assert LeadingCount(t, isSpace) == 0;
    assert t[0..] == t;
  }

  /** The regex `^\d{4}-\d{2}-\d{2}$`: the shape of a date, digits and
      dashes only, not its calendar validity. */
  predicate IsDateShape(s: string) {
    && |s| == 10
    && IsDigit(s[0]) && IsDigit(s[1]) && IsDigit(s[2]) && IsDigit(s[3])
    && s[4] == '-'
    && IsDigit(s[5]) && IsDigit(s[6])
    && s[7] == '-'
    && IsDigit(s[8]) && IsDigit(s[9])
  }

  /** Four digits, a dash, two digits, a dash and two digits have the shape of a date. */
  lemma DateShapeOf(y: string, m: string, d: string)
    ensures |y| == 4 && AllDigits(y) && |m| == 2 && AllDigits(m) && |d| == 2 && AllDigits(d)
            ==> IsDateShape(y + "-" + m + "-" + d)
  {
    if |y| == 4 && AllDigits(y) && |m| == 2 && AllDigits(m) && |d| == 2 && AllDigits(d) {
      DateShapeParts(y, m, d);
    }
  }

  lemma DateShapeParts(y: string, m: string, d: string)
    requires |y| == 4 && AllDigits(y) && |m| == 2 && AllDigits(m) && |d| == 2 && AllDigits(d)
    ensures IsDateShape(y + "-" + m + "-" + d)
  {
    var s := y + "-" + m + "-" + d;
    assert s[..4] == y && s[4] == '-' && s[5..7] == m && s[7] == '-' && s[8..] == d;
    assert IsDigit(y[0]) && IsDigit(y[1]) && IsDigit(y[2]) && IsDigit(y[3]);
    assert s[0] == y[0] && s[1] == y[1] && s[2] == y[2] && s[3] == y[3];
    assert s[5] == m[0] && s[6] == m[1] && s[8] == d[0] && s[9] == d[1];
  }

  // ---------------------------------------------------------------------------
  // Prefixes, substrings, replacement
  // ---------------------------------------------------------------------------

  predicate StartsWith(s: string, p: string) {
    |p| <= |s| && s[..|p|] == p
  }

  /** Substring test, Python's `p in s` and JavaScript's `s.includes(p)`. */
  predicate Contains(s: string, p: string)
    decreases |s|
  {
    StartsWith(s, p) || (|s| > 0 && Contains(s[1..], p))
  }

  /** An occurrence at a given position is found by `Contains`. */
  lemma {:induction false} ContainsAt(s: string, p: string, i: nat)
    requires i + |p| <= |s| && s[i..i + |p|] == p
    ensures Contains(s, p)
    decreases i
  {
    if i > 0 {
      assert s[1..][i - 1..i - 1 + |p|] == s[i..i + |p|];
      ContainsAt(s[1..], p, i - 1);
    }
  }

  /** A substring of a piece is a substring of the whole. */
  lemma {:induction false} ContainsInfix(a: string, b: string, c: string, p: string)
    requires Contains(b, p)
    ensures Contains(a + b + c, p)
    decreases |b|
  {
    if StartsWith(b, p) {
      assert (a + b + c)[|a|..|a| + |p|] == p;
      ContainsAt(a + b + c, p, |a|);
    } else {
      assert a + b + c == (a + [b[0]]) + b[1..] + c;
      ContainsInfix(a + [b[0]], b[1..], c, p);
    }
  }

  /** Trimming cannot produce a pattern the text does not contain. */
  lemma TrimAvoids(s: string, isSpace: char -> bool, p: string)
    requires !Contains(s, p)
    ensures !Contains(Trim(s, isSpace), p)
  {
    TrimIsInfix(s, isSpace);
    var a := LeadingCount(s, isSpace);
    var c := Trim(s, isSpace);
    assert s == s[..a] + c + s[a + |c|..];
    if Contains(c, p) {
      ContainsInfix(s[..a], c, s[a + |c|..], p);
    }
  }

  /** A one-character pattern occurs exactly when that character does. */
  lemma {:induction false} ContainsChar(s: string, c: char)
    ensures Contains(s, [c]) <==> c in s
    decreases |s|
  {
    if |s| > 0 {
      ContainsChar(s[1..], c);
      assert s == [s[0]] + s[1..];
    }
  }

  /** Python's `s.replace(pat, rep)` and JavaScript's `s.replaceAll(pat, rep)`:
      the non-overlapping occurrences of `pat`, found from the left, are
      replaced by `rep`. */
  function ReplaceAll(s: string, pat: string, rep: string): (r: string)
    requires |pat| > 0
    ensures !Contains(s, pat) ==> r == s
    decreases |s|
  {
    if |s| < |pat| then s
    else if s[..|pat|] == pat then rep + ReplaceAll(s[|pat|..], pat, rep)
    else [s[0]] + ReplaceAll(s[1..], pat, rep)
  }

  /** Character-by-character rewriting: each character becomes a string. */
  function MapChars(s: string, f: char -> string): (r: string)
    ensures s == [] ==> r == []
    decreases |s|
  {
    if s == [] then [] else f(s[0]) + MapChars(s[1..], f)
  }

  lemma {:induction false} MapCharsAppend(a: string, b: string, f: char -> string)
    ensures MapChars(a + b, f) == MapChars(a, f) + MapChars(b, f)
    decreases |a|
  {
    if a != [] {
      assert (a + b)[0] == a[0];
      assert (a + b)[1..] == a[1..] + b;
      MapCharsAppend(a[1..], b, f);
    } else {
      assert a + b == b;
    }
  }

  /** Two rewriting passes are one pass with the composed rewriting. */
  lemma {:induction false} MapCharsCompose(s: string, f: char -> string, g: char -> string, h: char -> string)
    requires forall c :: h(c) == MapChars(f(c), g)
    ensures MapChars(MapChars(s, f), g) == MapChars(s, h)
    decreases |s|
  {
    if s != [] {
      MapCharsAppend(f(s[0]), MapChars(s[1..], f), g);
      MapCharsCompose(s[1..], f, g, h);
    }
  }

  /** Replacing a one-character pattern is a character-by-character rewrite. */
  lemma {:induction false} ReplaceCharIsMap(s: string, c: char, rep: string, f: char -> string)
    requires forall x :: f(x) == if x == c then rep else [x]
    ensures ReplaceAll(s, [c], rep) == MapChars(s, f)
    decreases |s|
  {
    if s != [] {
      ReplaceCharIsMap(s[1..], c, rep, f);
    }
  }

  /** A character not in the text and not in the replacement is not in the result. */
  lemma {:induction false} ReplaceAvoids(s: string, pat: string, rep: string, c: char)
    requires |pat| > 0 && c !in s && c !in rep
    ensures c !in ReplaceAll(s, pat, rep)
    decreases |s|
  {
    if |s| >= |pat| {
      if s[..|pat|] == pat {
        ReplaceAvoids(s[|pat|..], pat, rep, c);
      } else {
        ReplaceAvoids(s[1..], pat, rep, c);
      }
    }
  }

  /** Replacing every occurrence of a character by text without it removes it. */
  lemma {:induction false} ReplaceRemovesChar(s: string, c: char, rep: string)
    requires c !in rep
    ensures c !in ReplaceAll(s, [c], rep)
    decreases |s|
  {
    if |s| >= 1 {
      ReplaceRemovesChar(s[1..], c, rep);
    }
  }

  // ---------------------------------------------------------------------------
  // Case, slicing, splitting, padding
  // ---------------------------------------------------------------------------

  function AsciiLowerChar(c: char): char {
    if 'A' <= c <= 'Z' then (c as int + 32) as char else c
  }

  /** Lower-casing, restricted to the ASCII letters. */
  function AsciiLower(s: string): (r: string)
    ensures |r| == |s|
    ensures forall k :: 0 <= k < |s| ==> r[k] == AsciiLowerChar(s[k])
  {
    seq(|s|, k requires 0 <= k < |s| => AsciiLowerChar(s[k]))
  }

  /** `s[:n]` in Python, or JavaScript `s.slice(0, n)` on text of the Basic
      Multilingual Plane: at most the first `n` characters. */
  function Take(s: string, n: nat): (r: string)
    ensures |r| == if |s| < n then |s| else n
    ensures r == s[..|r|]
  {
    if |s| <= n then s else s[..n]
  }

  /** The UTF-16 code units of a character: two (a surrogate pair) outside
      the Basic Multilingual Plane, one inside it. */
  function CodeUnits(c: char): (n: nat)
    ensures 1 <= n <= 2
  {
    if c as int > 0xFFFF then 2 else 1
  }

  /** JavaScript `s.length`: the number of UTF-16 code units. */
  function Utf16Length(s: string): (n: nat)
    ensures |s| <= n <= 2 * |s|
    decreases |s|
  {
    if s == [] then 0 else CodeUnits(s[0]) + Utf16Length(s[1..])
  }

  lemma {:induction false} Utf16LengthAppend(a: string, b: string)
    ensures Utf16Length(a + b) == Utf16Length(a) + Utf16Length(b)
    decreases |a|
  {
    if a != [] {
      assert (a + b)[0] == a[0] && (a + b)[1..] == a[1..] + b;
      Utf16LengthAppend(a[1..], b);
      assert Utf16Length(a + b) == CodeUnits(a[0]) + Utf16Length(a[1..] + b);
    } else {
      assert a + b == b;
    }
  }

  /** A part of a text has no more code units than the text. */
  lemma Utf16LengthInfix(s: string, i: nat, j: nat)
    requires i <= j <= |s|
    ensures Utf16Length(s[i..j]) <= Utf16Length(s)
  {
    assert s == s[..i] + s[i..j] + s[j..];
    Utf16LengthAppend(s[..i] + s[i..j], s[j..]);
    Utf16LengthAppend(s[..i], s[i..j]);
  }

  /** In the Basic Multilingual Plane the code-unit count is the length. */
  lemma {:induction false} Utf16LengthBmp(s: string)
    requires forall k :: 0 <= k < |s| ==> s[k] as int <= 0xFFFF
    ensures Utf16Length(s) == |s|
    decreases |s|
  {
    if s != [] {
      assert CodeUnits(s[0]) == 1;
      Utf16LengthBmp(s[1..]);
    }
  }

  /** A run of one character has that character's code units each time. */
  lemma {:induction false} Utf16LengthRepeat(c: char, n: nat)
    ensures Utf16Length(Repeat(c, n)) == n * CodeUnits(c)
    decreases n
  {
    if n > 0 {
      assert Repeat(c, n)[1..] == Repeat(c, n - 1);
      Utf16LengthRepeat(c, n - 1);
    }
  }

  /** JavaScript `s.slice(0, n)` for `n >= 0`, counted in code units as far as
      whole characters go: the longest prefix with at most `n` code units. */
  function Utf16Take(s: string, n: nat): (r: string)
    ensures |r| <= |s| && r == s[..|r|]
    ensures Utf16Length(r) <= n
    ensures |r| < |s| ==> Utf16Length(r) + CodeUnits(s[|r|]) > n
    decreases |s|
  {
    if s == [] || CodeUnits(s[0]) > n then []
    else
      var rest := Utf16Take(s[1..], n - CodeUnits(s[0]));
      assert ([s[0]] + rest)[1..] == rest;
      [s[0]] + rest
  }

  /** In the Basic Multilingual Plane the code-unit cut is the plain cut:
      each character is one code unit, so the largest prefix that fits has
      `n` characters, or all of them. */
  lemma Utf16TakeBmp(s: string, n: nat)
    requires forall k :: 0 <= k < |s| ==> s[k] as int <= 0xFFFF
    ensures Utf16Take(s, n) == Take(s, n)
  {
    var r := Utf16Take(s, n);
    assert forall k :: 0 <= k < |r| ==> r[k] == s[k];
    Utf16LengthBmp(r);
    if |r| < |s| {
      assert CodeUnits(s[|r|]) == 1;
    }
  }

  /** JavaScript `s.split(sep)[0]`: the text before the first separator. */
  function FirstField(s: string, sep: char): (r: string)
    ensures |r| <= |s| && r == s[..|r|]
    ensures sep !in r
    ensures |r| < |s| ==> s[|r|] == sep
    decreases |s|
  {
    if s == [] || s[0] == sep then [] else [s[0]] + FirstField(s[1..], sep)
  }

  function Repeat(c: char, n: nat): (r: string)
    ensures |r| == n && forall k :: 0 <= k < n ==> r[k] == c
  {
    seq(n, _ => c)
  }

  /** JavaScript `s.padStart(width, c)` with a one-character filler. */
  function PadStart(s: string, width: nat, c: char): (r: string)
    ensures |r| == if |s| < width then width else |s|
    ensures r[|r| - |s|..] == s
    ensures forall k :: 0 <= k < |r| - |s| ==> r[k] == c
  {
    if |s| >= width then s else Repeat(c, width - |s|) + s
  }

  // ---------------------------------------------------------------------------
  // Decimal numerals
  // ---------------------------------------------------------------------------

  function DigitChar(d: nat): (c: char)
    requires d < 10
    ensures IsDigit(c)
  {
    ('0' as int + d) as char
  }

  function DigitValue(c: char): (d: nat)
    requires IsDigit(c)
    ensures d < 10 && DigitChar(d) == c
  {
    c as int - '0' as int
  }

  /** The decimal numeral of `n`, without leading zeros (`String(n)`, `str(n)`). */
  function NatToString(n: nat): (r: string)
    ensures |r| >= 1 && AllDigits(r)
    ensures r[0] == '0' ==> n == 0
    decreases n
  {
    if n < 10 then [DigitChar(n)] else NatToString(n / 10) + [DigitChar(n % 10)]
  }

  /** The decimal numeral of an integer, with a leading '-' when negative. */
  function IntToString(i: int): (r: string)
    ensures |r| >= 1
    ensures i >= 0 ==> AllDigits(r)
    ensures i < 0 ==> r[0] == '-' && AllDigits(r[1..])
  {
    if i < 0 then "-" + NatToString(-i) else NatToString(i)
  }

  /** The value of a numeral made of digits. */
  function ParseDigits(s: string): nat
    requires AllDigits(s)
    decreases |s|
  {
    if s == [] then 0 else 10 * ParseDigits(s[..|s| - 1]) + DigitValue(s[|s| - 1])
  }

  /** Reading a numeral back gives the number. */
  lemma {:induction false} NatToStringRoundTrip(n: nat)
    ensures ParseDigits(NatToString(n)) == n
    decreases n
  {
    var r := NatToString(n);
    if n < 10 {
      assert r[..|r| - 1] == [];
    } else {
      NatToStringRoundTrip(n / 10);
      assert r[..|r| - 1] == NatToString(n / 10);
    }
  }

  /** Different numbers have different numerals. */
  lemma NatToStringInjective(m: nat, n: nat)
    requires NatToString(m) == NatToString(n)
    ensures m == n
  {
    NatToStringRoundTrip(m);
    NatToStringRoundTrip(n);
  }

  /** One-digit numbers have one-digit numerals, two-digit numbers two. */
  lemma {:induction false} NatToStringLength(n: nat)
    ensures n < 10 ==> |NatToString(n)| == 1
    ensures 10 <= n < 100 ==> |NatToString(n)| == 2
    ensures 100 <= n < 1000 ==> |NatToString(n)| == 3
    ensures 1000 <= n < 10000 ==> |NatToString(n)| == 4
  {
    if n >= 10 {
      NatToStringLength(n / 10);
    }
  }
}
