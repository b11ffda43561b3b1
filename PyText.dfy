/**
 * The parts of Python's string and integer built-ins that the scraper relies on:
 * `str.split` with a one-character separator, `''.join`, `int(str)` and `str(int)`.
 */
module PyText {
  import opened Wrappers

  // ---------------------------------------------------------------------------
  // str.split(sep) and ''.join(parts)
  // ---------------------------------------------------------------------------

  /** `s.split(sep)` for a one-character separator: every occurrence splits, empty pieces are kept. */
  function Split(s: string, sep: char): (parts: seq<string>)
    ensures |parts| == Occurrences(s, sep) + 1
    ensures forall k :: 0 <= k < |parts| ==> sep !in parts[k]
    decreases |s|
  {
    if |s| == 0 then [""]
    else
      var rest := Split(s[1..], sep);
      if s[0] == sep then [""] + rest
      else [[s[0]] + rest[0]] + rest[1..]
  }

  /** Number of occurrences of `c` in `s`. */
  function Occurrences(s: string, c: char): nat
  {
    if |s| == 0 then 0 else (if s[0] == c then 1 else 0) + Occurrences(s[1..], c)
  }

  /** `sep.join(parts)`. */
  function Join(parts: seq<string>, sep: char): string
    requires |parts| >= 1
  {
    if |parts| == 1 then parts[0] else parts[0] + [sep] + Join(parts[1..], sep)
  }

  /** `''.join(parts)`. */
  function Concat(parts: seq<string>): string
  {
    if |parts| == 0 then [] else parts[0] + Concat(parts[1..])
  }

  /** `s` with every occurrence of `c` deleted. */
  function Erase(s: string, c: char): (r: string)
    ensures |r| <= |s|
    ensures forall k :: 0 <= k < |r| ==> r[k] != c
  {
    if |s| == 0 then [] else (if s[0] == c then [] else [s[0]]) + Erase(s[1..], c)
  }

  /** Joining the pieces of a split with the same separator gives the string back. */
  lemma {:induction false} JoinSplit(s: string, sep: char)
    ensures Join(Split(s, sep), sep) == s
    decreases |s|
  {
    if |s| > 0 {
      JoinSplit(s[1..], sep);
      var rest := Split(s[1..], sep);
      if s[0] != sep && |rest| > 1 {
        assert Join(rest, sep) == rest[0] + [sep] + Join(rest[1..], sep);
      }
      assert s == [s[0]] + s[1..];
    }
  }

  /** A string without the separator is split into itself alone. */
  lemma {:induction false} SplitWithoutSeparator(s: string, sep: char)
    requires sep !in s
    ensures Split(s, sep) == [s]
    decreases |s|
  {
    if |s| > 0 {
      assert sep !in s[1..];
      SplitWithoutSeparator(s[1..], sep);
      assert [s[0]] + s[1..] == s;
    }
  }

  /** Splitting at the first separator: the first piece is everything before it. */
  lemma {:induction false} SplitAtFirst(a: string, sep: char, b: string)
    requires sep !in a
    ensures Split(a + [sep] + b, sep) == [a] + Split(b, sep)
    decreases |a|
  {
    if |a| == 0 {
      assert a + [sep] + b == [sep] + b;
      assert ([sep] + b)[1..] == b;
    } else {
      assert sep !in a[1..];
      SplitAtFirst(a[1..], sep, b);
      assert (a + [sep] + b)[1..] == a[1..] + [sep] + b;
      assert [a[0]] + a[1..] == a;
    }
  }

  /** Split is the only way of cutting `s` into separator-free pieces that join back to `s`. */
  lemma {:induction false} SplitUnique(parts: seq<string>, sep: char)
    requires |parts| >= 1
    requires forall k :: 0 <= k < |parts| ==> sep !in parts[k]
    ensures Split(Join(parts, sep), sep) == parts
    decreases |parts|
  {
    if |parts| == 1 {
      SplitWithoutSeparator(parts[0], sep);
    } else {
      assert forall k :: 0 <= k < |parts[1..]| ==> sep !in parts[1..][k] by {
        forall k | 0 <= k < |parts[1..]| ensures sep !in parts[1..][k] {
          assert parts[1..][k] == parts[k + 1];
        }
      }
      SplitUnique(parts[1..], sep);
      SplitAtFirst(parts[0], sep, Join(parts[1..], sep));
      assert [parts[0]] + parts[1..] == parts;
    }
  }

  /** `''.join(s.split(c))` deletes every `c`. */
  lemma {:induction false} ConcatSplit(s: string, c: char)
    ensures Concat(Split(s, c)) == Erase(s, c)
    decreases |s|
  {
    if |s| > 0 {
      ConcatSplit(s[1..], c);
      var rest := Split(s[1..], c);
      if s[0] == c {
        assert ([""] + rest)[1..] == rest;
      } else {
        assert ([[s[0]] + rest[0]] + rest[1..])[1..] == rest[1..];
        assert Concat(rest) == rest[0] + Concat(rest[1..]);
      }
    }
  }

  lemma {:induction false} EraseAppend(a: string, b: string, c: char)
    ensures Erase(a + b, c) == Erase(a, c) + Erase(b, c)
    decreases |a|
  {
    if |a| > 0 {
      assert (a + b)[1..] == a[1..] + b;
      EraseAppend(a[1..], b, c);
    } else {
      assert a + b == b;
    }
  }

  lemma {:induction false} EraseAbsent(s: string, c: char)
    requires c !in s
    ensures Erase(s, c) == s
    decreases |s|
  {
    if |s| > 0 {
      assert c !in s[1..];
      EraseAbsent(s[1..], c);
      assert [s[0]] + s[1..] == s;
    }
  }

  // ---------------------------------------------------------------------------
  // Digits, str(int) and the thousands-separated display of the shop
  // ---------------------------------------------------------------------------

  predicate IsDigit(c: char) { '0' <= c <= '9' }

  predicate AllDigits(s: string) { forall k :: 0 <= k < |s| ==> IsDigit(s[k]) }

  function DigitValue(c: char): nat
    requires IsDigit(c)
  {
    (c - '0') as nat
  }

  function DigitChar(d: nat): (c: char)
    requires d < 10
    ensures IsDigit(c) && DigitValue(c) == d
  {
    ('0' as int + d) as char
  }

  /** The value of a string of decimal digits, read most significant first (leading zeros allowed). */
  function DigitsValue(s: string): nat
    requires AllDigits(s)
  {
    if |s| == 0 then 0 else DigitsValue(s[..|s| - 1]) * 10 + DigitValue(s[|s| - 1])
  }

  function Pow10(n: nat): (p: nat)
    ensures p >= 1
  {
    if n == 0 then 1 else 10 * Pow10(n - 1)
  }

  /** Proof step: regrouping a decimal shift, kept apart so that the nonlinear terms stay small. */
  lemma ShiftDigit(x: int, p: int, y: int, d: int)
    ensures (x * p + y) * 10 + d == x * (p * 10) + (y * 10 + d)
  {
  }

  lemma {:induction false} DigitsValueAppend(a: string, b: string)
    requires AllDigits(a) && AllDigits(b)
    ensures AllDigits(a + b)
    ensures DigitsValue(a + b) == DigitsValue(a) * Pow10(|b|) + DigitsValue(b)
    decreases |b|
  {
    assert AllDigits(a + b) by {
      forall k | 0 <= k < |a + b| ensures IsDigit((a + b)[k]) {
        if k < |a| { assert (a + b)[k] == a[k]; } else { assert (a + b)[k] == b[k - |a|]; }
      }
    }
    if |b| == 0 {
      assert a + b == a;
    } else {
      var b' := b[..|b| - 1];
      assert (a + b)[..|a + b| - 1] == a + b';
      assert (a + b)[|a + b| - 1] == b[|b| - 1];
      DigitsValueAppend(a, b');
      var x, y, p, d := DigitsValue(a), DigitsValue(b'), Pow10(|b'|), DigitValue(b[|b| - 1]);
      assert DigitsValue(a + b) == (x * p + y) * 10 + d;
      assert DigitsValue(b) == y * 10 + d;
      assert Pow10(|b|) == p * 10;
      ShiftDigit(x, p, y, d);
    }
  }

  /** `str(n)` for a non-negative integer. */
  function Show(n: nat): (s: string)
    ensures |s| >= 1 && AllDigits(s)
  {
    if n < 10 then [DigitChar(n)] else Show(n / 10) + [DigitChar(n % 10)]
  }

  /** `str(n)` for any integer. */
  function ShowInt(n: int): string
  {
    if n < 0 then ['-'] + Show(-n) else Show(n)
  }

  /** Reading back the digits of `str(n)` gives `n`. */
  lemma {:induction false} ShowValue(n: nat)
    ensures DigitsValue(Show(n)) == n
  {
    if n >= 10 {
      ShowValue(n / 10);
      var s := Show(n);
      assert s[..|s| - 1] == Show(n / 10);
    }
  }

  /** Three digits with leading zeros, as in the groups after a thousands separator. */
  function Pad3(k: nat): (s: string)
    requires k < 1000
    ensures |s| == 3 && AllDigits(s) && DigitsValue(s) == k
  {
    var a, b, c := k / 100, k / 10 % 10, k % 10;
    var s := [DigitChar(a), DigitChar(b), DigitChar(c)];
    var s1, s2 := [s[0]], [s[0], s[1]];
    assert s[..2] == s2 && s2[..1] == s1 && s1[..0] == [];
    assert DigitsValue(s1) == a;
    assert DigitsValue(s2) == a * 10 + b;
    assert DigitsValue(s) == (a * 10 + b) * 10 + c;
    assert k / 10 == a * 10 + b;
    s
  }

  /** The shop's display of a count or a price: digit groups of three separated by `.`, as in "12.990". */
  function Dotted(n: nat): (s: string)
    ensures |s| >= 1 && IsDigit(s[0])
    ensures forall k :: 0 <= k < |s| ==> IsDigit(s[k]) || s[k] == '.'
  {
    if n < 1000 then Show(n) else Dotted(n / 1000) + "." + Pad3(n % 1000)
  }

  /** Deleting the separators of the display leaves a digit string whose value is `n`. */
  lemma {:induction false} DottedValue(n: nat)
    ensures |Erase(Dotted(n), '.')| >= 1
    ensures AllDigits(Erase(Dotted(n), '.'))
    ensures DigitsValue(Erase(Dotted(n), '.')) == n
  {
    if n < 1000 {
      EraseAbsent(Show(n), '.');
      ShowValue(n);
    } else {
      var hi, lo := Dotted(n / 1000), Pad3(n % 1000);
      assert Dotted(n) == hi + "." + lo;
      DottedValue(n / 1000);
      EraseAppend(hi + ".", lo, '.');
      EraseAppend(hi, ".", '.');
      assert Erase(".", '.') == [];
      assert '.' !in lo by {
        forall k | 0 <= k < |lo| ensures lo[k] != '.' { assert IsDigit(lo[k]); }
      }
      EraseAbsent(lo, '.');
      assert Erase(Dotted(n), '.') == Erase(hi, '.') + lo;
      DigitsValueAppend(Erase(hi, '.'), lo);
      assert Pow10(3) == 1000;
      assert n == n / 1000 * 1000 + n % 1000;
    }
  }

  /** Numbers from a thousand up are displayed with a separator after the first digit group. */
  lemma DottedHasSeparator(n: nat)
    requires n >= 1000
    ensures '.' in Dotted(n)[1..]
  {
    var hi := Dotted(n / 1000);
    assert Dotted(n)[|hi|] == '.';
    assert Dotted(n)[1..][|hi| - 1] == '.';
  }

  // ---------------------------------------------------------------------------
  // int(str)
  // ---------------------------------------------------------------------------

  /**
   * The characters Python's `int()` and `float()` skip around the number: the ASCII space and
   * `\t` to `\r`, and the non-ASCII characters `str.isspace()` accepts. The ASCII separators
   * U+001C to U+001F count as whitespace for `str.isspace()` but not here.
   */
  predicate IsSpace(c: char)
  {
    c == ' ' || ('\t' <= c <= '\r') || c == '\U{85}' || c == '\U{A0}'
    || c == '\U{1680}' || ('\U{2000}' <= c <= '\U{200A}') || c == '\U{2028}' || c == '\U{2029}'
    || c == '\U{202F}' || c == '\U{205F}' || c == '\U{3000}'
  }

  predicate AllSpace(s: string) { forall k :: 0 <= k < |s| ==> IsSpace(s[k]) }

  /** `s` without its leading whitespace. */
  function StripLeft(s: string): string
  {
    if |s| > 0 && IsSpace(s[0]) then StripLeft(s[1..]) else s
  }

  /** `s` without its trailing whitespace. */
  function StripRight(s: string): string
  {
    if |s| > 0 && IsSpace(s[|s| - 1]) then StripRight(s[..|s| - 1]) else s
  }

  /** Stripping on the left removes a run of whitespace and stops at the first other character. */
  lemma {:induction false} StripLeftRemovesSpace(s: string)
    ensures |StripLeft(s)| <= |s| && StripLeft(s) == s[|s| - |StripLeft(s)|..]
    ensures AllSpace(s[..|s| - |StripLeft(s)|])
    ensures |StripLeft(s)| == 0 || !IsSpace(StripLeft(s)[0])
    decreases |s|
  {
    if |s| > 0 && IsSpace(s[0]) {
      var t := StripLeft(s[1..]);
      StripLeftRemovesSpace(s[1..]);
      assert s[1..][..|s[1..]| - |t|] == s[1..|s| - |t|];
      assert s[1..][|s[1..]| - |t|..] == s[|s| - |t|..];
      var pre := s[..|s| - |t|];
      forall k | 0 <= k < |pre| ensures IsSpace(pre[k]) {
        if k > 0 { assert pre[k] == s[1..|s| - |t|][k - 1]; }
      }
    }
  }

  /** Stripping on the right removes a run of whitespace and stops at the last other character. */
  lemma {:induction false} StripRightRemovesSpace(s: string)
    ensures |StripRight(s)| <= |s| && StripRight(s) == s[..|StripRight(s)|]
    ensures AllSpace(s[|StripRight(s)|..])
    ensures |StripRight(s)| == 0 || !IsSpace(StripRight(s)[|StripRight(s)| - 1])
    decreases |s|
  {
    if |s| > 0 && IsSpace(s[|s| - 1]) {
      var t := StripRight(s[..|s| - 1]);
      StripRightRemovesSpace(s[..|s| - 1]);
      assert s[..|s| - 1][..|t|] == s[..|t|];
      assert s[..|s| - 1][|t|..] == s[|t|..|s| - 1];
      forall k | 0 <= k < |s| - |t| ensures IsSpace(s[|t|..][k]) {
        if k < |s| - 1 - |t| { assert s[|t|..][k] == s[|t|..|s| - 1][k]; }
      }
    }
  }

  /** `s.strip()`. */
  function Strip(s: string): string
  {
    StripRight(StripLeft(s))
  }

  /**
   * The body of a decimal literal as `int()` accepts it: digits, where a single `_`
   * may stand between two digits.
   */
  predicate DigitGroups(s: string)
  {
    |s| > 0 && IsDigit(s[0]) && IsDigit(s[|s| - 1]) && forall k :: 0 <= k < |s| ==> GroupChar(s, k)
  }

  /** Position `k` of a literal body holds a digit, or an `_` followed by a digit. */
  predicate GroupChar(s: string, k: nat)
    requires k < |s|
  {
    IsDigit(s[k]) || (s[k] == '_' && k + 1 < |s| && IsDigit(s[k + 1]))
  }

  /** A stripped literal is negative when it starts with `-`. */
  predicate Negative(t: string)
  {
    |t| > 0 && t[0] == '-'
  }

  /** A stripped literal without its sign character. */
  function Unsigned(t: string): string
  {
    if |t| > 0 && (t[0] == '-' || t[0] == '+') then t[1..] else t
  }

  /** Deleting the underscores of a literal body leaves plain digits. */
  lemma GroupDigits(body: string)
    requires DigitGroups(body)
    ensures |Erase(body, '_')| >= 1 && AllDigits(Erase(body, '_'))
  {
    EraseAppend([body[0]], body[1..], '_');
    assert [body[0]] + body[1..] == body;
    forall k | 0 <= k < |body| ensures IsDigit(body[k]) || body[k] == '_' {
      assert GroupChar(body, k);
    }
    EraseKeepsDigits(body, '_');
  }

  /** Deleting the only non-digit character of a string leaves plain digits. */
  lemma {:induction false} EraseKeepsDigits(s: string, c: char)
    requires forall k :: 0 <= k < |s| ==> IsDigit(s[k]) || s[k] == c
    ensures AllDigits(Erase(s, c))
    decreases |s|
  {
    if |s| > 0 {
      assert forall k :: 0 <= k < |s[1..]| ==> s[1..][k] == s[k + 1];
      EraseKeepsDigits(s[1..], c);
      var head := if s[0] == c then [] else [s[0]];
      assert Erase(s, c) == head + Erase(s[1..], c);
      forall k | 0 <= k < |Erase(s, c)| ensures IsDigit(Erase(s, c)[k]) {
        if k >= |head| {
          assert Erase(s, c)[k] == Erase(s[1..], c)[k - |head|];
        }
      }
    }
  }

  /** `int(s)` in base 10; `None` where Python raises `ValueError`. */
  function ParseInt(s: string): Option<int>
  {
    ReadLiteral(Strip(s))
  }

  /** `int()` on a literal already stripped of whitespace: an optional sign, then digit groups. */
  function ReadLiteral(t: string): Option<int>
  {
    var body := Unsigned(t);
    if DigitGroups(body) then
      GroupDigits(body);
      var magnitude: int := DigitsValue(Erase(body, '_'));
      Some(if Negative(t) then -magnitude else magnitude)
    else None
  }

  /**
   * A character that `int()` cannot place anywhere in a literal: not a digit, not
   * whitespace, not a sign and not the digit separator `_`.
   */
  predicate Foreign(c: char)
  {
    !IsDigit(c) && !IsSpace(c) && c != '+' && c != '-' && c != '_'
  }

  /** A character that is not whitespace survives stripping. */
  lemma StripKeeps(s: string, k: int)
    requires 0 <= k < |s| && !IsSpace(s[k])
    ensures s[k] in Strip(s)
  {
    StripLeftRemovesSpace(s);
    var l := StripLeft(s);
    var cut := |s| - |l|;
    forall i | 0 <= i < cut ensures IsSpace(s[i]) {
      assert s[..cut][i] == s[i];
    }
    assert k >= cut;
    var kl := k - cut;
    assert l[kl] == s[k];
    StripRightRemovesSpace(l);
    var r := StripRight(l);
    forall i | |r| <= i < |l| ensures IsSpace(l[i]) {
      assert l[|r|..][i - |r|] == l[i];
    }
    assert kl < |r|;
    assert r[kl] == s[k];
  }

  /** `int()` raises on a stripped literal holding a foreign character. */
  lemma ReadLiteralRejects(t: string, j: int)
    requires 0 <= j < |t| && Foreign(t[j])
    ensures ReadLiteral(t) == None
  {
    var body := Unsigned(t);
    var i := if body == t then j else j - 1;
    assert 0 <= i < |body| && body[i] == t[j];
    assert !GroupChar(body, i);
  }

  /** `int()` raises on any text holding a foreign character, wherever it stands. */
  lemma ParseRejects(s: string, k: int)
    requires 0 <= k < |s| && Foreign(s[k])
    ensures ParseInt(s) == None
  {
    StripKeeps(s, k);
    var t := Strip(s);
    var j :| 0 <= j < |t| && t[j] == s[k];
    ReadLiteralRejects(t, j);
  }

  /** `int('\x1c5')` raises: the ASCII separator U+001C is not skipped as whitespace. */
  lemma ParseRejectsSeparator(s: string)
    requires s == "\U{1C}5"
    ensures ParseInt(s) == None
  {
    ParseRejects(s, 0);
  }

  /** Deleting one character leaves every other character in place. */
  lemma EraseKeeps(s: string, c: char, k: int)
    requires 0 <= k < |s| && s[k] != c
    ensures s[k] in Erase(s, c)
  {
    assert s == s[..k] + ([s[k]] + s[k + 1..]);
    EraseAppend(s[..k], [s[k]] + s[k + 1..], c);
    EraseAppend([s[k]], s[k + 1..], c);
    assert Erase([s[k]], c) == [s[k]] + Erase([], c);
  }

  /** A non-empty string of plain digits is read as its digit value. */
  lemma ParseDigits(s: string)
    requires |s| >= 1 && AllDigits(s)
    ensures ParseInt(s) == Some(DigitsValue(s))
  {
    PlainLiteral(s);
    assert IsDigit(s[0]);
    assert Unsigned(s) == s && !Negative(s);
  }

  /** A non-empty string of plain digits has nothing to strip and no underscore. */
  lemma PlainLiteral(s: string)
    requires |s| >= 1 && AllDigits(s)
    ensures Strip(s) == s && DigitGroups(s) && Erase(s, '_') == s
  {
    assert IsDigit(s[0]) && IsDigit(s[|s| - 1]);
    PlainStrip(s);
    PlainGroups(s);
    EraseAbsent(s, '_');
  }

  lemma PlainStrip(s: string)
    requires |s| >= 1 && !IsSpace(s[0]) && !IsSpace(s[|s| - 1])
    ensures Strip(s) == s
  {
    assert StripLeft(s) == s;
    assert StripRight(s) == s;
  }

  lemma PlainGroups(s: string)
    requires |s| >= 1 && AllDigits(s)
    ensures DigitGroups(s) && '_' !in s
  {
    forall k | 0 <= k < |s| ensures GroupChar(s, k) && s[k] != '_' {
      assert IsDigit(s[k]);
    }
  }

  /** `int(str(n)) == n`. */
  lemma ParseShow(n: int)
    ensures ParseInt(ShowInt(n)) == Some(n)
  {
    ShowValue(if n < 0 then -n else n);
    if n < 0 {
      assert ShowInt(n)[1..] == Show(-n);
      ParseNegative(ShowInt(n));
    } else {
      ParseDigits(Show(n));
    }
  }

  /** A minus sign followed by plain digits is read as the negated digit value. */
  lemma ParseNegative(s: string)
    requires |s| >= 2 && s[0] == '-' && AllDigits(s[1..])
    ensures ParseInt(s) == Some(-(DigitsValue(s[1..]) as int))
  {
    var d := s[1..];
    assert s[|s| - 1] == d[|d| - 1];
    assert IsDigit(d[|d| - 1]);
    PlainStrip(s);
    PlainLiteral(d);
    assert Unsigned(s) == d && Negative(s);
  }

  /** `int()` ignores whitespace around the number. */
  lemma ParseIgnoresSpace(pre: string, s: string, post: string)
    requires AllSpace(pre) && AllSpace(post)
    requires |s| >= 1 && !IsSpace(s[0]) && !IsSpace(s[|s| - 1])
    ensures ParseInt(pre + s + post) == ParseInt(s)
  {
    assert StripLeft(s) == s;
    assert StripRight(s) == s;
    StripLeftSpaces(pre, s + post);
    assert pre + s + post == pre + (s + post);
    StripRightSpaces(s, post);
  }

  lemma {:induction false} StripLeftSpaces(pre: string, s: string)
    requires AllSpace(pre) && |s| >= 1 && !IsSpace(s[0])
    ensures StripLeft(pre + s) == s
    decreases |pre|
  {
    if |pre| > 0 {
      assert (pre + s)[1..] == pre[1..] + s;
      StripLeftSpaces(pre[1..], s);
    } else {
      assert pre + s == s;
    }
  }

  lemma {:induction false} StripRightSpaces(s: string, post: string)
    requires AllSpace(post) && |s| >= 1 && !IsSpace(s[|s| - 1])
    ensures StripRight(s + post) == s
    decreases |post|
  {
    if |post| > 0 {
      assert (s + post)[..|s + post| - 1] == s + post[..|post| - 1];
      StripRightSpaces(s, post[..|post| - 1]);
    } else {
      assert s + post == s;
    }
  }

  // ---------------------------------------------------------------------------
  // int(a / b)
  // ---------------------------------------------------------------------------

  /** `int(a / b)` for a positive divisor, computed exactly: the quotient truncated toward zero. */
  function TruncDiv(a: int, b: int): (q: int)
    requires b > 0
    ensures a >= 0 ==> 0 <= q && q * b <= a < (q + 1) * b
    ensures a < 0 ==> q <= 0 && (q - 1) * b < a <= q * b
  {
    if a >= 0 then DivBounds(a, b); a / b
    else DivBounds(-a, b); NegatedBounds((-a) / b, b, -a); -((-a) / b)
  }

  lemma DivBounds(a: int, b: int)
    requires a >= 0 && b > 0
    ensures 0 <= a / b && (a / b) * b <= a < (a / b + 1) * b
  {
    var q, r := a / b, a % b;
    assert a == q * b + r && 0 <= r < b;
    assert (q + 1) * b == q * b + b;
  }

  lemma NegatedBounds(q: int, b: int, x: int)
    requires q * b <= x < (q + 1) * b
    ensures (-q - 1) * b < -x <= (-q) * b
  {
    assert (-q - 1) * b == -((q + 1) * b);
    assert (-q) * b == -(q * b);
  }
}
