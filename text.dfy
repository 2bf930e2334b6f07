/** The JavaScript string operations the core uses — `trim`, `split`,
    `join`, `toUpperCase`, `lastIndexOf` and number-to-string — on strings
    seen as sequences of characters. */
module Text {
  import opened Wrappers

  /** The code points `String.prototype.trim` removes: ECMAScript's
      WhiteSpace and LineTerminator productions. */
  predicate IsJsWhitespace(c: char) {
    || c == '\t' || c == '\n' || c == '\U{000B}' || c == '\U{000C}' || c == '\r' || c == ' '
    || c == '\U{00A0}' || c == '\U{1680}' || ('\U{2000}' <= c <= '\U{200A}')
    || c == '\U{2028}' || c == '\U{2029}' || c == '\U{202F}' || c == '\U{205F}'
    || c == '\U{3000}' || c == '\U{FEFF}'
  }

  /** Every character is whitespace (the empty string included). */
  predicate Blank(s: string) {
    forall i :: 0 <= i < |s| ==> IsJsWhitespace(s[i])
  }

  /** Number of whitespace characters at the start of `s`. */
  function LeadingBlanks(s: string): (n: nat)
    ensures n <= |s|
    ensures Blank(s[..n])
    ensures n < |s| ==> !IsJsWhitespace(s[n])
  {
    if |s| > 0 && IsJsWhitespace(s[0]) then
      var m := LeadingBlanks(s[1..]);
      assert s[..1 + m] == [s[0]] + s[1..][..m];
      1 + m
    else 0
  }

  /** Number of whitespace characters at the end of `s`. */
  function TrailingBlanks(s: string): (n: nat)
    ensures n <= |s|
    ensures Blank(s[|s| - n..])
    ensures n < |s| ==> !IsJsWhitespace(s[|s| - n - 1])
  {
    if |s| > 0 && IsJsWhitespace(s[|s| - 1]) then
      var init := s[..|s| - 1];
      var m := TrailingBlanks(init);
      assert s[|s| - (1 + m)..] == init[|init| - m..] + [s[|s| - 1]];
      1 + m
    else 0
  }

  /** `s.trim()`: `s` without its leading and trailing whitespace. */
  function Trim(s: string): (r: string)
    ensures |r| <= |s|
    ensures r == "" <==> Blank(s)
    ensures r != "" ==> !IsJsWhitespace(r[0]) && !IsJsWhitespace(r[|r| - 1])
  {
    var lead := LeadingBlanks(s);
    var t := s[lead..];
    var trail := TrailingBlanks(t);
    var r := t[..|t| - trail];
    assert r == "" ==> Blank(s) by {
      if r == "" {
        assert t == t[|t| - trail..];
        assert s == s[..lead] + t;
      }
    }
    r
  }

  /** Index of the first character satisfying `sep`, or `|s|` when none does. */
  function FirstWhere(s: string, sep: char -> bool): (i: nat)
    ensures i <= |s|
    ensures forall j :: 0 <= j < i ==> !sep(s[j])
    ensures i < |s| ==> sep(s[i])
  {
    if s == [] || sep(s[0]) then 0 else 1 + FirstWhere(s[1..], sep)
  }

  /** `s.split(re)` for a regular expression `re` matching exactly the
      single characters satisfying `sep`: the maximal separator-free
      pieces, empty ones included; `"".split(re)` is `[""]`. */
  function Split(s: string, sep: char -> bool): (parts: seq<string>)
    ensures |parts| >= 1
  {
    if s == [] then [""]
    else
      var rest := Split(s[1..], sep);
      if sep(s[0]) then [""] + rest else [[s[0]] + rest[0]] + rest[1..]
  }

  /** The first piece of a split is everything before the first separator. */
  lemma {:induction false} SplitHead(s: string, sep: char -> bool)
    ensures Split(s, sep)[0] == s[..FirstWhere(s, sep)]
  {
    if s != [] && !sep(s[0]) {
      SplitHead(s[1..], sep);
      assert s[..FirstWhere(s, sep)] == [s[0]] + s[1..][..FirstWhere(s[1..], sep)];
    }
  }

  /** After the first separator, the remaining pieces are the split of
      the rest of the string; without a separator there is one piece. */
  lemma {:induction false} SplitTail(s: string, sep: char -> bool)
    ensures FirstWhere(s, sep) == |s| ==> |Split(s, sep)| == 1
    ensures FirstWhere(s, sep) < |s| ==>
      Split(s, sep)[1..] == Split(s[FirstWhere(s, sep) + 1..], sep)
  {
    if s != [] && !sep(s[0]) {
      SplitTail(s[1..], sep);
      if FirstWhere(s, sep) < |s| {
        assert s[1..][FirstWhere(s[1..], sep) + 1..] == s[FirstWhere(s, sep) + 1..];
      }
    }
  }

  /** No piece of a split contains a separator. */
  lemma {:induction false} SplitPiecesHaveNoSeparator(s: string, sep: char -> bool)
    ensures forall k, j :: 0 <= k < |Split(s, sep)| && 0 <= j < |Split(s, sep)[k]| ==> !sep(Split(s, sep)[k][j])
  {
    if s != [] {
      SplitPiecesHaveNoSeparator(s[1..], sep);
    }
  }

  /** The last element of a non-empty list of pieces (`.pop()`). */
  function LastOf(parts: seq<string>): string
    requires parts != []
  {
    parts[|parts| - 1]
  }

  /** `last` is what follows a separator at the end of `s`. */
  predicate SeparatorLed(s: string, last: string, sep: char -> bool) {
    |last| < |s| && sep(s[|s| - |last| - 1]) && s[|s| - |last|..] == last
  }

  /** The last piece of a split holds no separator; it is the whole string
      when there is no separator, and otherwise the text after the last
      separator. */
  lemma SplitLastPiece(s: string, sep: char -> bool)
    ensures var last := LastOf(Split(s, sep));
      && (forall j :: 0 <= j < |last| ==> !sep(last[j]))
      && (FirstWhere(s, sep) == |s| ==> last == s)
      && (FirstWhere(s, sep) < |s| ==> SeparatorLed(s, last, sep))
  {
    var parts := Split(s, sep);
    SplitPiecesHaveNoSeparator(s, sep);
    assert parts[|parts| - 1] in parts;
    SplitWithoutSeparator(s, sep);
    SplitLastSuffix(s, sep);
  }

  /** Without a separator the split is the string itself. */
  lemma SplitWithoutSeparator(s: string, sep: char -> bool)
    ensures FirstWhere(s, sep) == |s| ==> Split(s, sep) == [s]
  {
    SplitHead(s, sep);
    SplitTail(s, sep);
    assert s[..|s|] == s;
  }

  /** With a separator, the last piece is what follows the last separator. */
  lemma {:induction false} SplitLastSuffix(s: string, sep: char -> bool)
    ensures FirstWhere(s, sep) < |s| ==> SeparatorLed(s, LastOf(Split(s, sep)), sep)
    decreases |s|
  {
    var f := FirstWhere(s, sep);
    if f < |s| {
      var t := s[f + 1..];
      SplitLastOfTail(s, sep);
      SplitWithoutSeparator(t, sep);
      SplitLastSuffix(t, sep);
      SuffixAfterSeparator(s, f, LastOf(Split(t, sep)), sep);
    }
  }

  /** With a separator, the last piece is the last piece of what follows
      the first separator. */
  lemma SplitLastOfTail(s: string, sep: char -> bool)
    requires FirstWhere(s, sep) < |s|
    ensures var parts := Split(s, sep); var tail := Split(s[FirstWhere(s, sep) + 1..], sep);
      parts[|parts| - 1] == tail[|tail| - 1]
  {
    SplitTail(s, sep);
  }

  /** What follows a separator in `s`, or a separator-led tail of it, is a
      separator-led tail of `s`. */
  lemma SuffixAfterSeparator(s: string, f: nat, last: string, sep: char -> bool)
    requires f < |s| && sep(s[f])
    requires last == s[f + 1..] || SeparatorLed(s[f + 1..], last, sep)
    ensures SeparatorLed(s, last, sep)
  {
    var t := s[f + 1..];
    if last == t {
      assert s[|s| - |last| - 1] == s[f];
    } else {
      assert s[|s| - |last| - 1] == t[|t| - |last| - 1];
      assert s[|s| - |last|..] == t[|t| - |last|..];
    }
  }

  /** A separator at the end of a string adds one empty last piece. */
  lemma {:induction false} SplitAppendSeparator(s: string, sep: char -> bool, c: char)
    requires sep(c)
    ensures Split(s + [c], sep) == Split(s, sep) + [""]
  {
    if s == [] {
      assert [c][1..] == [];
    } else {
      assert (s + [c])[1..] == s[1..] + [c];
      SplitAppendSeparator(s[1..], sep, c);
    }
  }

  /** Equal strings with the same head and tail have the same middle. */
  lemma MiddleCancels(head: string, a: string, b: string, tail: string)
    requires head + a + tail == head + b + tail
    ensures a == b
  {
    var s := head + a + tail;
    assert |a| == |b|;
    assert a == s[|head|..|head| + |a|];
    assert b == (head + b + tail)[|head|..|head| + |b|];
  }

  /** `parts.join(delim)`. */
  function Join(parts: seq<string>, delim: string): string {
    if |parts| == 0 then ""
    else if |parts| == 1 then parts[0]
    else parts[0] + delim + Join(parts[1..], delim)
  }

  /** `s` with every character satisfying `p` replaced by `c`, one for one. */
  function ReplaceWhere(s: string, p: char -> bool, c: char): (r: string)
    ensures |r| == |s|
    ensures forall i :: 0 <= i < |s| ==> r[i] == if p(s[i]) then c else s[i]
  {
    if s == [] then [] else [if p(s[0]) then c else s[0]] + ReplaceWhere(s[1..], p, c)
  }

  /** Splitting on separator characters and joining with one character
      replaces each separator by that character in place. */
  lemma {:induction false} JoinSplit(s: string, sep: char -> bool, c: char)
    ensures Join(Split(s, sep), [c]) == ReplaceWhere(s, sep, c)
  {
    if s != [] {
      JoinSplit(s[1..], sep, c);
      var rest := Split(s[1..], sep);
      if !sep(s[0]) {
        if |rest| > 1 {
          assert ([[s[0]] + rest[0]] + rest[1..])[1..] == rest[1..];
        }
      }
    }
  }

  /** `toUpperCase` on one character, for the ASCII letters. */
  function UpperChar(c: char): char {
    if 'a' <= c <= 'z' then (c as int - 32) as char else c
  }

  /** `s.toUpperCase()`, with ASCII case mapping. */
  function Upper(s: string): (r: string)
    ensures |r| == |s|
    ensures forall i :: 0 <= i < |s| ==> r[i] == UpperChar(s[i])
  {
    if s == [] then [] else [UpperChar(s[0])] + Upper(s[1..])
  }

  /** `s.charAt(0)` as a string: the first character, or "" for "". */
  function FirstChar(s: string): (r: string)
    ensures |r| <= 1
  {
    if s == [] then "" else s[..1]
  }

  /** Position of the last occurrence of `c` in `s`. */
  function LastIndexOf(s: string, c: char): (r: Option<nat>)
    ensures r.None? ==> c !in s
    ensures r.Some? ==> r.value < |s| && s[r.value] == c && c !in s[r.value + 1..]
  {
    if s == [] then None
    else if s[|s| - 1] == c then Some(|s| - 1)
    else
      var r := LastIndexOf(s[..|s| - 1], c);
      assert s == s[..|s| - 1] + [s[|s| - 1]];
      r
  }

  function DigitChar(d: nat): char
    requires d < 10
  {
    ('0' as int + d) as char
  }

  /** A number's decimal text, as a template literal writes a
      non-negative integer. */
  function Decimal(n: nat): (r: string)
    ensures |r| >= 1
    ensures forall i :: 0 <= i < |r| ==> '0' <= r[i] <= '9'
  {
    if n < 10 then [DigitChar(n)] else Decimal(n / 10) + [DigitChar(n % 10)]
  }

  /** The number a string of decimal digits denotes. */
  function DecimalValue(s: string): nat
    requires forall i :: 0 <= i < |s| ==> '0' <= s[i] <= '9'
  {
    if s == [] then 0 else 10 * DecimalValue(s[..|s| - 1]) + (s[|s| - 1] as int - '0' as int)
  }

  /** Reading back the decimal text gives the number. */
  lemma {:induction false} DecimalRoundTrip(n: nat)
    ensures DecimalValue(Decimal(n)) == n
  {
    if n >= 10 {
      DecimalRoundTrip(n / 10);
      var r := Decimal(n);
      assert r[..|r| - 1] == Decimal(n / 10);
    }
  }
}
