/** The parts of Rust's `str` that the modelled code relies on. A `&str` is a sequence of
Unicode scalar values; byte lengths and boundaries are in module Utf8. */
module Text {

  datatype Option<+T> = None | Some(value: T)

  // ----- Characters -----

  /** `char::is_whitespace`: the Unicode White_Space property. */
  predicate IsWhitespace(c: char) {
    var n := c as int;
    || 9 <= n <= 13 || n == 0x20 || n == 0x85 || n == 0xA0 || n == 0x1680
    || 0x2000 <= n <= 0x200A || n == 0x2028 || n == 0x2029 || n == 0x202F || n == 0x205F || n == 0x3000
  }

  function AsciiLower(c: char): char {
    if 'A' <= c <= 'Z' then (c as int + 32) as char else c
  }

  function ToAsciiLower(s: string): (r: string)
    ensures |r| == |s|
    ensures forall i :: 0 <= i < |s| ==> r[i] == AsciiLower(s[i])
  {
    seq(|s|, i requires 0 <= i < |s| => AsciiLower(s[i]))
  }

  predicate EqIgnoreAsciiCase(a: string, b: string) {
    |a| == |b| && forall i :: 0 <= i < |a| ==> AsciiLower(a[i]) == AsciiLower(b[i])
  }

  // ----- Searching -----

  /** Index of the first `c`, or the length if there is none. */
  function FindChar(s: string, c: char): (i: nat)
    ensures i <= |s|
    ensures c !in s[..i]
    ensures i < |s| ==> s[i] == c
  {
    if s == "" || s[0] == c then 0
    else
      var rest := FindChar(s[1..], c);
      assert s[..rest + 1] == [s[0]] + s[1..][..rest];
      rest + 1
  }

  lemma {:induction false} FindCharAt(s: string, c: char, k: nat)
    requires k < |s| && s[k] == c && c !in s[..k]
    ensures FindChar(s, c) == k
  {
    if k > 0 {
      assert s[..k][0] == s[0] && s[1..][..k - 1] == s[..k][1..];
      FindCharAt(s[1..], c, k - 1);
    }
  }

  lemma FindCharAbsent(s: string, c: char)
    requires c !in s
    ensures FindChar(s, c) == |s|
  {
  }

  predicate OccursAt(t: string, s: string, i: nat) {
    i + |t| <= |s| && s[i..i + |t|] == t
  }

  ghost predicate IsInfix(t: string, s: string) {
    exists i: nat :: OccursAt(t, s, i)
  }

  lemma InfixIntro(before: string, t: string, after: string)
    ensures IsInfix(t, before + t + after)
  {
    assert OccursAt(t, before + t + after, |before|);
  }

  lemma InfixTransitive(t: string, u: string, s: string)
    requires IsInfix(t, u) && IsInfix(u, s)
    ensures IsInfix(t, s)
  {
    var i: nat :| OccursAt(t, u, i);
    var j: nat :| OccursAt(u, s, j);
    forall k | 0 <= k < |t|
      ensures s[j + i + k] == t[k]
    {
      assert s[j..j + |u|][i + k] == u[i + k] == u[i..i + |t|][k];
    }
    assert OccursAt(t, s, j + i);
  }

  // ----- Trimming -----

  function TrimStart(s: string): (r: string)
    ensures |r| <= |s|
    ensures r != "" ==> !IsWhitespace(r[0])
  {
    if s != "" && IsWhitespace(s[0]) then TrimStart(s[1..]) else s
  }

  function TrimEnd(s: string): (r: string)
    ensures |r| <= |s|
    ensures r != "" ==> !IsWhitespace(r[|r| - 1])
  {
    if s != "" && IsWhitespace(s[|s| - 1]) then TrimEnd(s[..|s| - 1]) else s
  }

  function Trim(s: string): string {
    TrimEnd(TrimStart(s))
  }

  lemma {:induction false} TrimStartIsSuffix(s: string)
    ensures TrimStart(s) == s[|s| - |TrimStart(s)|..]
  {
    hide IsWhitespace;
    if TrimStart(s) != s {
      TrimStartIsSuffix(s[1..]);
    }
  }

  lemma {:induction false} TrimEndIsPrefix(s: string)
    ensures TrimEnd(s) == s[..|TrimEnd(s)|]
  {
    hide IsWhitespace;
    if TrimEnd(s) != s {
      TrimEndIsPrefix(s[..|s| - 1]);
    }
  }

  lemma TrimIsInfix(s: string)
    ensures IsInfix(Trim(s), s)
  {
    TrimStartIsSuffix(s);
    TrimEndIsPrefix(TrimStart(s));
    hide IsWhitespace, IsInfix, TrimStart, TrimEnd;
    var t := TrimStart(s);
    assert t == Trim(s) + t[|Trim(s)|..];
    assert s == s[..|s| - |t|] + t;
    assert s == s[..|s| - |t|] + Trim(s) + t[|Trim(s)|..];
    InfixIntro(s[..|s| - |t|], Trim(s), t[|Trim(s)|..]);
  }

  lemma TrimOfTrimmed(s: string)
    requires s != "" && !IsWhitespace(s[0]) && !IsWhitespace(s[|s| - 1])
    ensures Trim(s) == s
  {
  }

  lemma {:induction false} TrimEndKeepsFirst(s: string)
    requires s != "" && !IsWhitespace(s[0])
    ensures TrimEnd(s) != "" && TrimEnd(s)[0] == s[0]
  {
    if IsWhitespace(s[|s| - 1]) {
      TrimEndKeepsFirst(s[..|s| - 1]);
    }
  }

  lemma TrimKeepsFirst(s: string)
    requires s != "" && !IsWhitespace(s[0])
    ensures Trim(s) != "" && Trim(s)[0] == s[0]
  {
    hide IsWhitespace, TrimEnd;
    TrimEndKeepsFirst(s);
  }

  predicate AllWhitespace(s: string) {
    forall i :: 0 <= i < |s| ==> IsWhitespace(s[i])
  }

  /** No whitespace at either end. */
  predicate IsTrimmed(s: string) {
    s != "" ==> !IsWhitespace(s[0]) && !IsWhitespace(s[|s| - 1])
  }

  lemma {:induction false} TrimStartOfPadded(a: string, t: string)
    requires AllWhitespace(a) && (t != "" ==> !IsWhitespace(t[0]))
    ensures TrimStart(a + t) == t
  {
    if a == "" {
      assert a + t == t;
    } else {
      assert (a + t)[1..] == a[1..] + t;
      TrimStartOfPadded(a[1..], t);
    }
  }

  lemma {:induction false} TrimEndOfPadded(t: string, b: string)
    requires AllWhitespace(b) && (t != "" ==> !IsWhitespace(t[|t| - 1]))
    ensures TrimEnd(t + b) == t
  {
    if b == "" {
      assert t + b == t;
    } else {
      assert (t + b)[..|t + b| - 1] == t + b[..|b| - 1];
      TrimEndOfPadded(t, b[..|b| - 1]);
    }
  }

  /** Trimming takes off exactly the whitespace around a trimmed text. */
  lemma TrimOfPadded(a: string, t: string, b: string)
    requires AllWhitespace(a) && IsTrimmed(t) && AllWhitespace(b)
    ensures Trim(a + t + b) == t
  {
    hide IsWhitespace;
    if t == "" {
      assert AllWhitespace(a + t + b);
      assert (a + t + b) + "" == a + t + b;
      TrimStartOfPadded(a + t + b, "");
    } else {
      assert a + t + b == a + (t + b);
      TrimStartOfPadded(a, t + b);
      TrimEndOfPadded(t, b);
    }
  }

  lemma {:induction false} TrimStartTakesWhitespace(s: string, i: nat)
    requires i < |s| - |TrimStart(s)|
    ensures IsWhitespace(s[i])
  {
    hide IsWhitespace;
    if i > 0 {
      TrimStartTakesWhitespace(s[1..], i - 1);
    }
  }

  lemma TrimStartSplits(s: string) returns (a: string)
    ensures AllWhitespace(a) && s == a + TrimStart(s)
  {
    TrimStartIsSuffix(s);
    hide IsWhitespace, TrimStart;
    var k := |s| - |TrimStart(s)|;
    a := s[..k];
    forall i | 0 <= i < k
      ensures IsWhitespace(a[i])
    {
      TrimStartTakesWhitespace(s, i);
    }
  }

  lemma {:induction false} TrimEndTakesWhitespace(s: string, i: nat)
    requires |TrimEnd(s)| <= i < |s|
    ensures IsWhitespace(s[i])
  {
    hide IsWhitespace;
    if i < |s| - 1 {
      TrimEndTakesWhitespace(s[..|s| - 1], i);
    }
  }

  lemma TrimEndSplits(s: string) returns (b: string)
    ensures AllWhitespace(b) && s == TrimEnd(s) + b
  {
    TrimEndIsPrefix(s);
    hide IsWhitespace, TrimEnd;
    var k := |TrimEnd(s)|;
    b := s[k..];
    forall i | 0 <= i < |b|
      ensures IsWhitespace(b[i])
    {
      TrimEndTakesWhitespace(s, k + i);
    }
  }

  /** Every text is whitespace, its trimmed form, and whitespace. */
  lemma TrimExactly(s: string) returns (a: string, b: string)
    ensures AllWhitespace(a) && AllWhitespace(b) && IsTrimmed(Trim(s)) && s == a + Trim(s) + b
  {
    hide AllWhitespace, IsWhitespace, TrimStart, TrimEnd, IsTrimmed;
    a := TrimStartSplits(s);
    b := TrimEndSplits(TrimStart(s));
    TrimKeepsEnds(TrimStart(s));
  }

  lemma TrimKeepsEnds(t: string)
    requires t != "" ==> !IsWhitespace(t[0])
    ensures IsTrimmed(TrimEnd(t))
  {
    hide IsWhitespace;
    if t != "" {
      TrimEndKeepsFirst(t);
    }
  }

  /** Whitespace behind a text makes no difference to its trimmed form. */
  lemma TrimOfTrimEnd(s: string)
    ensures Trim(TrimEnd(s)) == Trim(s)
  {
    hide IsWhitespace, AllWhitespace, TrimEnd, Trim, IsTrimmed;
    var e := TrimEnd(s);
    var a, b := TrimExactly(e);
    var tail := TrimEndSplits(s);
    var u := Trim(e);
    WhitespaceConcat(b, tail);
    TrimOfPadded(a, u, b + tail);
    assert a + u + b + tail == a + u + (b + tail);
  }

  lemma WhitespaceConcat(a: string, b: string)
    requires AllWhitespace(a) && AllWhitespace(b)
    ensures AllWhitespace(a + b)
  {
    hide IsWhitespace;
  }

  // ----- Words -----

  predicate IsWord(s: string) {
    forall i :: 0 <= i < |s| ==> !IsWhitespace(s[i])
  }

  /** `splitn(2, char::is_whitespace)`: the first word and what follows its delimiter. */
  function FirstWord(s: string): (head: string)
    ensures head <= s
    ensures IsWord(head)
    ensures |head| < |s| ==> IsWhitespace(s[|head|])
  {
    if s == "" || IsWhitespace(s[0]) then "" else [s[0]] + FirstWord(s[1..])
  }

  lemma {:induction false} FirstWordOf(head: string, tail: string)
    requires IsWord(head)
    requires tail != "" && IsWhitespace(tail[0])
    ensures FirstWord(head + tail) == head
  {
    if head != "" {
      assert (head + tail)[1..] == head[1..] + tail;
      FirstWordOf(head[1..], tail);
    } else {
      assert head + tail == tail;
    }
  }

  lemma {:induction false} FirstWordWhole(s: string)
    requires IsWord(s)
    ensures FirstWord(s) == s
  {
    if s != "" {
      FirstWordWhole(s[1..]);
    }
  }

  // ----- Lines -----

  function StripCr(line: string): string {
    if line != "" && line[|line| - 1] == '\r' then line[..|line| - 1] else line
  }

  lemma StripCrIsPrefix(line: string)
    ensures StripCr(line) <= line
  {
  }

  /** `str::lines`: split at "\n" or "\r\n"; no empty last line; a lone "\r" stays. */
  function Lines(s: string): seq<string>
    decreases |s|
  {
    if s == "" then []
    else
      var i := FindChar(s, '\n');
      if i == |s| then [s] else [StripCr(s[..i])] + Lines(s[i + 1..])
  }

  lemma {:induction false} LineIsInfix(s: string, k: nat)
    requires k < |Lines(s)|
    ensures IsInfix(Lines(s)[k], s)
    decreases |s|
  {
    hide IsInfix, FindChar, StripCr;
    var i := FindChar(s, '\n');
    if i == |s| {
      assert s == [] + s + [];
      InfixIntro([], s, []);
    } else if k == 0 {
      var line := StripCr(s[..i]);
      StripCrIsPrefix(s[..i]);
      assert s == [] + line + s[|line|..];
      InfixIntro([], line, s[|line|..]);
    } else {
      LineIsInfix(s[i + 1..], k - 1);
      assert s == s[..i + 1] + s[i + 1..] + [];
      InfixIntro(s[..i + 1], s[i + 1..], []);
      InfixTransitive(Lines(s)[k], s[i + 1..], s);
    }
  }

  lemma LinesOfConcat(line: string, rest: string)
    requires '\n' !in line
    ensures Lines(line + "\n" + rest) == [StripCr(line)] + Lines(rest)
  {
    var s := line + "\n" + rest;
    assert s[..|line|] == line;
    FindCharAt(s, '\n', |line|);
    assert s[|line| + 1..] == rest;
  }

  lemma LinesOfOneLine(line: string)
    requires line != "" && '\n' !in line
    ensures Lines(line) == [line]
  {
    FindCharAbsent(line, '\n');
  }

  // ----- Unsigned decimals -----

  const U64_LIMIT: nat := 0x1_0000_0000_0000_0000

  predicate IsDigit(c: char) {
    '0' <= c <= '9'
  }

  predicate AllDigits(s: string) {
    forall i :: 0 <= i < |s| ==> IsDigit(s[i])
  }

  function Digit(d: nat): (c: char)
    requires d < 10
    ensures IsDigit(c) && c as int - '0' as int == d
  {
    ('0' as int + d) as char
  }

  /** `u64::to_string`. */
  function Decimal(n: nat): (s: string)
    ensures |s| >= 1 && AllDigits(s)
  {
    if n < 10 then [Digit(n)] else Decimal(n / 10) + [Digit(n % 10)]
  }

  function DecimalValue(s: string): nat
    requires AllDigits(s)
  {
    if s == "" then 0
    else DecimalValue(s[..|s| - 1]) * 10 + (s[|s| - 1] as int - '0' as int)
  }

  /** `str::parse::<u64>`: an optional plus sign, then digits, below 2^64. */
  function ParseU64(s: string): Option<nat> {
    var digits := if |s| > 1 && s[0] == '+' then s[1..] else s;
    if digits != "" && AllDigits(digits) && DecimalValue(digits) < U64_LIMIT
    then Some(DecimalValue(digits)) else None
  }

  lemma {:induction false} DecimalReadsBack(n: nat)
    ensures DecimalValue(Decimal(n)) == n
  {
    if n >= 10 {
      DecimalReadsBack(n / 10);
      assert Decimal(n)[..|Decimal(n)| - 1] == Decimal(n / 10);
    } else {
      assert Decimal(n)[..0] == "";
    }
  }

  lemma ParseU64ReadsBack(n: nat)
    ensures ParseU64(Decimal(n)) == if n < U64_LIMIT then Some(n) else None
  {
    DecimalReadsBack(n);
    assert Decimal(n)[0] != '+';
  }

  lemma DecimalInjective(m: nat, n: nat)
    requires Decimal(m) == Decimal(n)
    ensures m == n
  {
    DecimalReadsBack(m);
    DecimalReadsBack(n);
  }

  lemma DigitsAreNotWhitespace(c: char)
    requires IsDigit(c)
    ensures !IsWhitespace(c)
  {
  }
}
