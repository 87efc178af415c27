/**
 * The parts of Python's string built-ins that the counter file relies on:
 * `str.strip()`, `str.split(sep)`, `int(s)`, `str(n)` and the line
 * splitting done by `readlines()` on a file opened in text mode.
 */
module PyText {
  import opened Wrappers

  /** Whitespace as Python's `str.isspace` defines it. */
  predicate IsSpace(ch: char) {
    var n := ch as int;
    (9 <= n <= 13) || (28 <= n <= 32) || n == 0x85 || n == 0xA0 || n == 0x1680
    || (0x2000 <= n <= 0x200A) || n == 0x2028 || n == 0x2029 || n == 0x202F
    || n == 0x205F || n == 0x3000
  }

  /** `s.lstrip()`: drops leading whitespace. */
  function StripLeft(s: string): string {
    if s != [] && IsSpace(s[0]) then StripLeft(s[1..]) else s
  }

  /** `s.rstrip()`: drops trailing whitespace. */
  function StripRight(s: string): string {
    if s != [] && IsSpace(s[|s| - 1]) then StripRight(s[..|s| - 1]) else s
  }

  /** `s.strip()`: drops whitespace at both ends. */
  function Strip(s: string): string {
    StripRight(StripLeft(s))
  }

  /** `lstrip` keeps a suffix, and what it drops is whitespace. */
  lemma {:induction false} StripLeftKeepsSuffix(s: string)
    ensures |StripLeft(s)| <= |s| && StripLeft(s) == s[|s| - |StripLeft(s)|..]
    ensures forall k :: 0 <= k < |s| - |StripLeft(s)| ==> IsSpace(s[k])
    ensures StripLeft(s) == [] || !IsSpace(StripLeft(s)[0])
  {
    if s != [] && IsSpace(s[0]) {
      StripLeftKeepsSuffix(s[1..]);
      var r := StripLeft(s[1..]);
      assert s[1..][|s| - 1 - |r|..] == s[|s| - |r|..];
      forall k | 0 <= k < |s| - |r|
        ensures IsSpace(s[k])
      {
        if k > 0 {
          assert s[k] == s[1..][k - 1];
        }
      }
    }
  }

  /** `rstrip` keeps a prefix, and what it drops is whitespace. */
  lemma {:induction false} StripRightKeepsPrefix(s: string)
    ensures |StripRight(s)| <= |s| && StripRight(s) == s[..|StripRight(s)|]
    ensures forall k :: |StripRight(s)| <= k < |s| ==> IsSpace(s[k])
    ensures StripRight(s) == [] || !IsSpace(StripRight(s)[|StripRight(s)| - 1])
  {
    if s != [] && IsSpace(s[|s| - 1]) {
      StripRightKeepsPrefix(s[..|s| - 1]);
      var r := StripRight(s[..|s| - 1]);
      assert s[..|s| - 1][..|r|] == s[..|r|];
      forall k | |r| <= k < |s|
        ensures IsSpace(s[k])
      {
        if k < |s| - 1 {
          assert s[k] == s[..|s| - 1][k];
        }
      }
    }
  }

  /**
   * After `strip` no whitespace is left at either end, and a string without
   * whitespace at its ends is returned as it is.
   */
  lemma StripEnds(s: string)
    ensures Strip(s) == [] || (!IsSpace(Strip(s)[0]) && !IsSpace(Strip(s)[|Strip(s)| - 1]))
    ensures s == [] || (!IsSpace(s[0]) && !IsSpace(s[|s| - 1])) ==> Strip(s) == s
  {
    StripLeftKeepsSuffix(s);
    StripRightKeepsPrefix(StripLeft(s));
  }

  /** Stripping removes only whitespace: any other character keeps its number of occurrences. */
  lemma StripKeepsCount(s: string, x: char)
    requires !IsSpace(x)
    ensures multiset(Strip(s))[x] == multiset(s)[x]
  {
    var left := StripLeft(s);
    StripLeftKeepsSuffix(s);
    DropLeadingSpaces(s, |s| - |left|, x);
    StripRightKeepsPrefix(left);
    DropTrailingSpaces(left, |StripRight(left)|, x);
  }

  /** `lstrip` of a text followed by a whitespace character. */
  lemma {:induction false} StripLeftAppendSpace(s: string, c: char)
    requires IsSpace(c)
    ensures StripLeft(s + [c]) == if StripLeft(s) == [] then [] else StripLeft(s) + [c]
  {
    if s != [] {
      assert (s + [c])[0] == s[0] && (s + [c])[1..] == s[1..] + [c];
      if IsSpace(s[0]) {
        StripLeftAppendSpace(s[1..], c);
      }
    }
  }

  /** A whitespace character at the end, such as a line end, makes no difference to `strip()`. */
  lemma StripDropsTrailingSpace(s: string, c: char)
    requires IsSpace(c)
    ensures Strip(s + [c]) == Strip(s)
  {
    StripLeftAppendSpace(s, c);
    var l := StripLeft(s);
    if l != [] {
      assert (l + [c])[..|l|] == l;
    }
  }

  /** Dropping a prefix made of whitespace keeps the count of a non-space character. */
  lemma DropLeadingSpaces(s: string, i: nat, x: char)
    requires i <= |s|
    requires forall k :: 0 <= k < i ==> IsSpace(s[k])
    requires !IsSpace(x)
    ensures multiset(s[i..])[x] == multiset(s)[x]
  {
    assert s == s[..i] + s[i..];
    OnlySpaces(s[..i], x);
  }

  /** Dropping a suffix made of whitespace keeps the count of a non-space character. */
  lemma DropTrailingSpaces(s: string, j: nat, x: char)
    requires j <= |s|
    requires forall k :: j <= k < |s| ==> IsSpace(s[k])
    requires !IsSpace(x)
    ensures multiset(s[..j])[x] == multiset(s)[x]
  {
    assert s == s[..j] + s[j..];
    OnlySpaces(s[j..], x);
  }

  lemma OnlySpaces(u: string, x: char)
    requires forall k :: 0 <= k < |u| ==> IsSpace(u[k])
    requires !IsSpace(x)
    ensures multiset(u)[x] == 0
  {
    assert x !in u;
  }

  /** `s.split(sep)` for a one-character separator. */
  function Split(s: string, sep: char): (parts: seq<string>)
    ensures |parts| >= 1
  {
    if s == [] then [[]]
    else
      var rest := Split(s[1..], sep);
      if s[0] == sep then [[]] + rest
      else [[s[0]] + rest[0]] + rest[1..]
  }

  /** A split has one more part than there are separators, and no part contains the separator. */
  lemma {:induction false} SplitCount(s: string, sep: char)
    ensures |Split(s, sep)| == multiset(s)[sep] + 1
    ensures forall p :: p in Split(s, sep) ==> sep !in p
  {
    if s != [] {
      SplitCount(s[1..], sep);
      assert s == [s[0]] + s[1..];
    }
  }

  /** Splitting at the first separator: the part before it, then the parts of the rest. */
  lemma {:induction false} SplitAtFirst(a: string, sep: char, rest: string)
    requires sep !in a
    ensures Split(a + [sep] + rest, sep) == [a] + Split(rest, sep)
  {
    if a != [] {
      assert (a + [sep] + rest)[1..] == a[1..] + [sep] + rest;
      SplitAtFirst(a[1..], sep, rest);
      assert [a[0]] + a[1..] == a;
    }
  }

  /** Splitting at the last separator: the parts of what precedes it, then the part after it. */
  lemma {:induction false} SplitAtLast(x: string, sep: char, c: string)
    requires sep !in c
    ensures Split(x + [sep] + c, sep) == Split(x, sep) + [c]
  {
    if x == [] {
      assert x + [sep] + c == [sep] + c;
      assert ([sep] + c)[1..] == c;
      SplitWithoutSeparator(c, sep);
    } else {
      var y := x + [sep] + c;
      assert y[0] == x[0] && y[1..] == x[1..] + [sep] + c;
      SplitAtLast(x[1..], sep, c);
      var r := Split(x[1..], sep);
      assert (r + [c])[0] == r[0] && (r + [c])[1..] == r[1..] + [c];
    }
  }

  /** A string without the separator splits into itself alone. */
  lemma {:induction false} SplitWithoutSeparator(a: string, sep: char)
    requires sep !in a
    ensures Split(a, sep) == [a]
  {
    if a != [] {
      SplitWithoutSeparator(a[1..], sep);
      assert [a[0]] + a[1..] == a;
    }
  }

  /**
   * Universal-newline translation, applied by Python when a file opened in
   * text mode is read: "\r\n" and a lone "\r" each become "\n".
   */
  function TranslateNewlines(s: string): string
    decreases |s|
  {
    if s == [] then []
    else if s[0] == '\r' then
      "\n" + TranslateNewlines(if |s| > 1 && s[1] == '\n' then s[2..] else s[1..])
    else [s[0]] + TranslateNewlines(s[1..])
  }

  /** No "\r" survives the translation, and text without "\r" is left as it is. */
  lemma {:induction false} TranslateNewlinesFacts(s: string)
    ensures '\r' !in TranslateNewlines(s)
    ensures '\r' !in s ==> TranslateNewlines(s) == s
    decreases |s|
  {
    if s != [] {
      if s[0] == '\r' {
        TranslateNewlinesFacts(if |s| > 1 && s[1] == '\n' then s[2..] else s[1..]);
      } else {
        TranslateNewlinesFacts(s[1..]);
        assert s == [s[0]] + s[1..];
      }
    }
  }

  /**
   * The lines `readlines()` returns for a file holding `text`, each without
   * its newline. A text ending in a newline yields one more, empty, line.
   */
  function ReadLines(text: string): seq<string> {
    Split(TranslateNewlines(text), '\n')
  }

  /** No line that `readlines()` returns holds a line break inside it. */
  lemma ReadLinesHaveNoBreaks(text: string)
    ensures forall l :: l in ReadLines(text) ==> '\n' !in l && '\r' !in l
  {
    TranslateNewlinesFacts(text);
    SplitCount(TranslateNewlines(text), '\n');
    SplitKeepsAbsent(TranslateNewlines(text), '\n', '\r');
  }

  /** A character absent from a string is absent from every part of its split. */
  lemma {:induction false} SplitKeepsAbsent(s: string, sep: char, x: char)
    requires x !in s
    ensures forall p :: p in Split(s, sep) ==> x !in p
  {
    if s != [] {
      SplitKeepsAbsent(s[1..], sep, x);
    }
  }

  predicate IsDigit(ch: char) {
    '0' <= ch <= '9'
  }

  predicate AllDigits(s: string) {
    forall k :: 0 <= k < |s| ==> IsDigit(s[k])
  }

  function DigitChar(d: nat): (ch: char)
    requires d < 10
    ensures IsDigit(ch) && ch as int - '0' as int == d
  {
    ('0' as int + d) as char
  }

  /** The value of a run of decimal digits, most significant first. */
  function DigitsValue(s: string): nat
    requires AllDigits(s)
  {
    if s == [] then 0
    else DigitsValue(s[..|s| - 1]) * 10 + (s[|s| - 1] as int - '0' as int)
  }

  function ParseDigits(s: string): Option<int> {
    if s != [] && AllDigits(s) then Some(DigitsValue(s)) else None
  }

  /**
   * The whitespace `int()` skips around a number: the characters of `IsSpace`
   * except U+001C..U+001F. The conversion maps whitespace to ' ' only above
   * code point 127 and then skips the ASCII spaces "\t\n\v\f\r ".
   */
  predicate IsIntSpace(ch: char) {
    IsSpace(ch) && !(28 <= ch as int <= 31)
  }

  function TrimLeftIntSpace(s: string): string {
    if s != [] && IsIntSpace(s[0]) then TrimLeftIntSpace(s[1..]) else s
  }

  function TrimRightIntSpace(s: string): string {
    if s != [] && IsIntSpace(s[|s| - 1]) then TrimRightIntSpace(s[..|s| - 1]) else s
  }

  /** The text `int()` converts once the whitespace around it is skipped. */
  function TrimIntSpace(s: string): string {
    TrimRightIntSpace(TrimLeftIntSpace(s))
  }

  /** Text with no such whitespace at its ends is converted as it is. */
  lemma TrimIntSpaceKeeps(s: string)
    requires s == [] || (!IsIntSpace(s[0]) && !IsIntSpace(s[|s| - 1]))
    ensures TrimIntSpace(s) == s
  {
  }

  /**
   * `int(s)` on a string: surrounding whitespace, then an optional sign, then
   * at least one decimal digit; anything else is the ValueError case, None.
   */
  function ParseInt(s: string): Option<int> {
    var t := TrimIntSpace(s);
    if t != [] && t[0] == '-' then
      match ParseDigits(t[1..])
      case Some(n) => Some(-n)
      case None => None
    else if t != [] && t[0] == '+' then ParseDigits(t[1..])
    else ParseDigits(t)
  }

  /** `str(n)` for n >= 0. */
  function NatToString(n: nat): string {
    if n < 10 then [DigitChar(n)] else NatToString(n / 10) + [DigitChar(n % 10)]
  }

  /** `str(n)` for n >= 0 is a non-empty run of digits without leading zeros, whose value is n. */
  lemma {:induction false} NatToStringDigits(n: nat)
    ensures NatToString(n) != [] && AllDigits(NatToString(n))
    ensures DigitsValue(NatToString(n)) == n
    ensures NatToString(n)[0] == '0' ==> n == 0
  {
    if n >= 10 {
      NatToStringDigits(n / 10);
      var s := NatToString(n);
      assert s[..|s| - 1] == NatToString(n / 10);
    }
  }

  /** `str(n)` for any integer: a minus sign for negative values, then the digits. */
  function IntToString(n: int): string {
    if n < 0 then "-" + NatToString(-n) else NatToString(n)
  }

  /** `str(n)` is made of digits, with at most a leading minus sign, and ends in a digit. */
  lemma IntToStringChars(n: int)
    ensures IntToString(n) != [] && IsDigit(IntToString(n)[|IntToString(n)| - 1])
    ensures forall k :: 0 <= k < |IntToString(n)| ==>
              IsDigit(IntToString(n)[k]) || (k == 0 && IntToString(n)[k] == '-')
  {
    if n < 0 {
      NatToStringDigits(-n);
      assert IntToString(n)[1..] == NatToString(-n);
    } else {
      NatToStringDigits(n);
    }
  }

  /** `int(str(n)) == n`: the text written for a count reads back as that count. */
  lemma IntRoundTrip(n: int)
    ensures ParseInt(IntToString(n)) == Some(n)
  {
    if n < 0 {
      NatToStringDigits(-n);
      ParseSignedDigits(NatToString(-n));
    } else {
      NatToStringDigits(n);
      ParseDigitsOnly(NatToString(n));
    }
  }

  lemma ParseDigitsOnly(d: string)
    requires d != [] && AllDigits(d)
    ensures ParseInt(d) == Some(DigitsValue(d))
  {
    assert IsDigit(d[0]) && IsDigit(d[|d| - 1]);
    TrimIntSpaceKeeps(d);
  }

  lemma ParseSignedDigits(d: string)
    requires d != [] && AllDigits(d)
    ensures ParseInt("-" + d) == Some(-(DigitsValue(d) as int))
  {
    var s := "-" + d;
    assert s[0] == '-' && s[1..] == d;
    assert !IsIntSpace(s[|s| - 1]) by {
      assert s[|s| - 1] == d[|d| - 1];
    }
    TrimIntSpaceKeeps(s);
    assert ParseDigits(s[1..]) == Some(DigitsValue(d));
  }

  /**
   * A character U+001C..U+001F before the digits makes `int()` fail, although
   * `strip()` would drop it.
   */
  lemma SeparatorControlNotSkipped(c: char, d: string)
    requires 28 <= c as int <= 31
    requires d != [] && AllDigits(d)
    ensures ParseInt([c] + d) == None
    ensures Strip([c] + d) == d
  {
    var s := [c] + d;
    assert s[|s| - 1] == d[|d| - 1] && IsDigit(d[|d| - 1]);
    TrimIntSpaceKeeps(s);
    assert !IsDigit(s[0]);
    assert s[1..] == d;
    assert IsDigit(d[0]);
    StripEnds(d);
  }
}
