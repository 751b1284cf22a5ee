/** UTF-8 (sections 3 and 4 of RFC 3629) and the two functions that cut a text at a byte cap:
`truncate_with_marker` (crates/ar-chat/src/handler.rs) and `cap_for_error`
(crates/ar-forgejo/src/client.rs). A `&str` is the encoding of a sequence of scalar values. */
module Utf8 {
  import opened Text

  newtype byte = b: int | 0 <= b < 256

  type Bytes = seq<byte>

  /** Six payload bits of a continuation byte. */
  function Continuation(n: nat): byte {
    (0x80 + n % 64) as byte
  }

  function EncodeChar(c: char): (bytes: Bytes)
    ensures 1 <= |bytes| <= 4
    ensures !IsContinuation(bytes[0])
    ensures forall i :: 1 <= i < |bytes| ==> IsContinuation(bytes[i])
  {
    var n := c as nat;
    if n < 0x80 then [n as byte]
    else if n < 0x800 then [(0xC0 + n / 64) as byte, Continuation(n)]
    else if n < 0x1_0000 then [(0xE0 + n / 4096) as byte, Continuation(n / 64), Continuation(n)]
    else [(0xF0 + n / 262144) as byte, Continuation(n / 4096), Continuation(n / 64), Continuation(n)]
  }

  predicate IsContinuation(b: byte) {
    0x80 <= b < 0xC0
  }

  function Encode(s: string): Bytes {
    if s == "" then [] else Encode(s[..|s| - 1]) + EncodeChar(s[|s| - 1])
  }

  lemma EncodeSnoc(s: string, c: char)
    ensures Encode(s + [c]) == Encode(s) + EncodeChar(c)
  {
    hide EncodeChar, IsContinuation;
    assert (s + [c])[..|s|] == s;
  }

  lemma {:induction false} EncodeConcat(s: string, t: string)
    ensures Encode(s + t) == Encode(s) + Encode(t)
  {
    hide EncodeChar, IsContinuation, Encode;
    if t == "" {
      assert s + t == s;
      EncodeNothing();
    } else {
      var n := |t| - 1;
      EncodeConcat(s, t[..n]);
      EncodeSnoc(s + t[..n], t[n]);
      EncodeSnoc(t[..n], t[n]);
      assert s + t == s + t[..n] + [t[n]] && t == t[..n] + [t[n]];
    }
  }

  lemma EncodeNothing()
    ensures Encode("") == []
  {
  }

  // ----- Reading back -----

  /** The first scalar value and its number of bytes; rejects truncated, overlong, surrogate
      and too large forms. */
  function DecodeFirst(bytes: Bytes): Option<(char, nat)> {
    if |bytes| == 0 then None
    else if bytes[0] < 0x80 then Scalar(bytes[0] as nat, 0, 1)
    else if 0xC0 <= bytes[0] < 0xE0 && Follow(bytes, 1) then
      Scalar((bytes[0] - 0xC0) as nat * 64 + Payload(bytes[1]), 0x80, 2)
    else if 0xE0 <= bytes[0] < 0xF0 && Follow(bytes, 2) then
      Scalar(((bytes[0] - 0xE0) as nat * 64 + Payload(bytes[1])) * 64 + Payload(bytes[2]), 0x800, 3)
    else if 0xF0 <= bytes[0] < 0xF8 && Follow(bytes, 3) then
      Scalar((((bytes[0] - 0xF0) as nat * 64 + Payload(bytes[1])) * 64 + Payload(bytes[2])) * 64 + Payload(bytes[3]),
             0x1_0000, 4)
    else None
  }

  predicate Follow(bytes: Bytes, n: nat) {
    |bytes| > n && forall i :: 1 <= i <= n ==> IsContinuation(bytes[i])
  }

  function Payload(b: byte): nat
    requires IsContinuation(b)
  {
    (b - 0x80) as nat
  }

  function Scalar(n: nat, least: nat, length: nat): Option<(char, nat)> {
    if n < least || 0xD800 <= n < 0xE000 || n >= 0x11_0000 then None else Some((n as char, length))
  }

  function Decode(bytes: Bytes): Option<string> {
    if bytes == [] then Some("")
    else
      match DecodeFirst(bytes)
      case None => None
      case Some((c, n)) =>
        if n == 0 || n > |bytes| then None
        else
          match Decode(bytes[n..])
          case None => None
          case Some(rest) => Some([c] + rest)
  }

  lemma Sextets(n: nat)
    ensures n / 64 * 64 + n % 64 == n
    ensures n / 4096 == n / 64 / 64 && n / 262144 == n / 4096 / 64
    ensures (n / 4096 * 64 + n / 64 % 64) * 64 + n % 64 == n
    ensures ((n / 262144 * 64 + n / 4096 % 64) * 64 + n / 64 % 64) * 64 + n % 64 == n
  {
  }

  lemma FromSextets(high: nat, low: nat)
    requires low < 64
    ensures (high * 64 + low) / 64 == high && (high * 64 + low) % 64 == low
  {
  }

  lemma DecodeFirstReadsBack(c: char, rest: Bytes)
    ensures DecodeFirst(EncodeChar(c) + rest) == Some((c, |EncodeChar(c)|))
  {
    var bytes, n := EncodeChar(c) + rest, c as nat;
    Sextets(n);
    if n < 0x80 {
    } else if n < 0x800 {
      assert bytes[1] == Continuation(n);
    } else if n < 0x1_0000 {
      assert bytes[1] == Continuation(n / 64) && bytes[2] == Continuation(n);
    } else {
      assert bytes[1] == Continuation(n / 4096) && bytes[2] == Continuation(n / 64) && bytes[3] == Continuation(n);
    }
  }

  lemma {:induction false} DecodeReadsBack(s: string)
    ensures Decode(Encode(s)) == Some(s)
    decreases |s|
  {
    hide EncodeChar, DecodeFirst;
    if s != "" {
      var c, rest := s[0], s[1..];
      assert s == [c] + rest;
      EncodeConcat([c], rest);
      assert Encode([c]) == EncodeChar(c) by {
        assert [c][..0] == "";
      }
      DecodeFirstReadsBack(c, Encode(rest));
      DecodeReadsBack(rest);
      assert Encode(s)[|EncodeChar(c)|..] == Encode(rest);
    }
  }

  lemma EncodeTwo(c: char, x: nat, y: nat)
    requires x < 32 && y < 64 && c as nat == x * 64 + y >= 0x80
    ensures EncodeChar(c) == [(0xC0 + x) as byte, (0x80 + y) as byte]
  {
    FromSextets(x, y);
  }

  lemma EncodeThree(c: char, x: nat, y: nat, z: nat)
    requires x < 16 && y < 64 && z < 64 && c as nat == (x * 64 + y) * 64 + z >= 0x800
    ensures EncodeChar(c) == [(0xE0 + x) as byte, (0x80 + y) as byte, (0x80 + z) as byte]
  {
    FromSextets(x, y);
    FromSextets(x * 64 + y, z);
    Sextets(c as nat);
  }

  lemma EncodeFour(c: char, w: nat, x: nat, y: nat, z: nat)
    requires w < 8 && x < 64 && y < 64 && z < 64 && c as nat == ((w * 64 + x) * 64 + y) * 64 + z >= 0x1_0000
    ensures EncodeChar(c) == [(0xF0 + w) as byte, (0x80 + x) as byte, (0x80 + y) as byte, (0x80 + z) as byte]
  {
    FromSextets(w, x);
    FromSextets(w * 64 + x, y);
    FromSextets((w * 64 + x) * 64 + y, z);
    Sextets(c as nat);
  }

  lemma EncodeFirstReadsBack(bytes: Bytes)
    requires DecodeFirst(bytes).Some?
    ensures var (c, n) := DecodeFirst(bytes).value; n <= |bytes| && EncodeChar(c) == bytes[..n]
  {
    var (c, n) := DecodeFirst(bytes).value;
    if n == 1 {
    } else {
      hide EncodeChar;
      if n == 2 {
        EncodeTwo(c, (bytes[0] - 0xC0) as nat, Payload(bytes[1]));
      } else if n == 3 {
        EncodeThree(c, (bytes[0] - 0xE0) as nat, Payload(bytes[1]), Payload(bytes[2]));
      } else {
        EncodeFour(c, (bytes[0] - 0xF0) as nat, Payload(bytes[1]), Payload(bytes[2]), Payload(bytes[3]));
      }
    }
  }

  /** Valid UTF-8 is exactly what `Encode` produces. */
  lemma {:induction false} ValidIffEncoded(bytes: Bytes, s: string)
    ensures Decode(bytes) == Some(s) <==> bytes == Encode(s)
    decreases |bytes|
  {
    DecodeReadsBack(s);
    if Decode(bytes) == Some(s) && bytes != [] {
      hide EncodeChar, DecodeFirst;
      var (c, n) := DecodeFirst(bytes).value;
      EncodeFirstReadsBack(bytes);
      ValidIffEncoded(bytes[n..], s[1..]);
      EncodeConcat([c], s[1..]);
      assert Encode([c]) == EncodeChar(c) by {
        assert [c][..0] == "";
      }
      assert s == [c] + s[1..] && bytes == bytes[..n] + bytes[n..];
    }
  }

  // ----- Boundaries -----

  /** `str::is_char_boundary`, which looks at one byte. */
  predicate IsCharBoundary(bytes: Bytes, i: nat) {
    i == 0 || i == |bytes| || (i < |bytes| && !IsContinuation(bytes[i]))
  }

  function EndOf(s: string, k: nat): nat
    requires k <= |s|
  {
    |Encode(s[..k])|
  }

  ghost predicate IsPrefixEnd(s: string, i: nat) {
    exists k: nat :: k <= |s| && EndOf(s, k) == i
  }

  lemma {:induction false} EndsIncrease(s: string, j: nat, k: nat)
    requires j <= k <= |s|
    ensures EndOf(s, j) <= EndOf(s, k)
    ensures j < k ==> EndOf(s, j) < EndOf(s, k)
  {
    assert s[..k] == s[..j] + s[j..k];
    EncodeConcat(s[..j], s[j..k]);
  }

  lemma EndsOfPrefix(s: string, n: nat, i: nat)
    requires n <= |s| && i < EndOf(s, n)
    ensures IsPrefixEnd(s, i) <==> IsPrefixEnd(s[..n], i)
  {
    forall k: nat | k <= n
      ensures EndOf(s[..n], k) == EndOf(s, k)
    {
      assert s[..n][..k] == s[..k];
    }
    if k: nat :| k <= |s| && EndOf(s, k) == i {
      if k > n {
        EndsIncrease(s, n, k);
        assert false;
      }
      assert EndOf(s[..n], k) == i;
    }
  }

  lemma LastCharBytes(s: string)
    requires s != ""
    ensures var n := |s| - 1; Encode(s) == Encode(s[..n]) + EncodeChar(s[n]) && EndOf(s, n) == |Encode(s[..n])|
    ensures EndOf(s, |s|) == |Encode(s)|
  {
    hide EncodeChar, IsContinuation;
    assert s[..|s|] == s;
  }

  lemma BoundaryBeforeLastChar(front: Bytes, last: Bytes, i: nat)
    requires i < |front|
    ensures IsCharBoundary(front + last, i) <==> IsCharBoundary(front, i)
  {
    hide IsContinuation;
  }

  lemma NoBoundaryInChar(front: Bytes, c: char, i: nat)
    requires |front| < i < |front| + |EncodeChar(c)|
    ensures !IsCharBoundary(front + EncodeChar(c), i)
  {
    hide EncodeChar, IsContinuation;
    assert IsContinuation(EncodeChar(c)[i - |front|]);
  }

  lemma NoPrefixEndsInChar(s: string, i: nat)
    requires s != "" && EndOf(s, |s| - 1) < i < EndOf(s, |s|)
    ensures !IsPrefixEnd(s, i)
  {
    hide Encode, EndOf;
    forall k: nat | k <= |s|
      ensures EndOf(s, k) != i
    {
      if k < |s| {
        EndsIncrease(s, k, |s| - 1);
      }
    }
  }

  lemma BoundaryAtChar(front: Bytes, c: char)
    ensures IsCharBoundary(front + EncodeChar(c), |front|)
  {
    hide EncodeChar, IsContinuation;
    assert (front + EncodeChar(c))[|front|] == EncodeChar(c)[0];
  }

  /** Looking at one byte finds exactly the ends of the prefixes. */
  lemma {:induction false} BoundaryIffPrefixEnd(s: string, i: nat)
    requires i <= |Encode(s)|
    ensures IsCharBoundary(Encode(s), i) <==> IsPrefixEnd(s, i)
  {
    if s == "" {
      assert EndOf("", 0) == 0;
    } else {
      var n := |s| - 1;
      LastCharBytes(s);
      hide EncodeChar, Encode, EndOf;
      if i < EndOf(s, n) {
        BoundaryBeforeLastChar(Encode(s[..n]), EncodeChar(s[n]), i);
        hide IsCharBoundary, IsPrefixEnd;
        BoundaryIffPrefixEnd(s[..n], i);
        EndsOfPrefix(s, n, i);
      } else if EndOf(s, n) < i < EndOf(s, |s|) {
        NoBoundaryInChar(Encode(s[..n]), s[n], i);
        NoPrefixEndsInChar(s, i);
      } else {
        BoundaryAtChar(Encode(s[..n]), s[n]);
        assert i == EndOf(s, n) || i == EndOf(s, |s|);
      }
    }
  }

  // ----- Cutting at a byte cap -----

  /** Number of characters of the longest prefix of at most `max` bytes. */
  function Fit(s: string, max: nat): (k: nat)
    ensures k <= |s|
  {
    if |Encode(s)| <= max then |s| else Fit(s[..|s| - 1], max)
  }

  lemma {:induction false} FitIsLongest(s: string, max: nat)
    ensures EndOf(s, Fit(s, max)) <= max
    ensures forall k: nat :: k <= |s| && EndOf(s, k) <= max ==> k <= Fit(s, max)
  {
    hide EncodeChar;
    if |Encode(s)| <= max {
      assert s[..|s|] == s;
    } else {
      var n := |s| - 1;
      FitIsLongest(s[..n], max);
      assert s[..|s|] == s;
      forall k: nat | k <= |s| && EndOf(s, k) <= max
        ensures k <= Fit(s, max)
      {
        if k <= n {
          assert s[..n][..k] == s[..k];
          assert EndOf(s[..n], k) == EndOf(s, k);
        }
      }
      assert s[..n][..Fit(s, max)] == s[..Fit(s, max)];
    }
  }

  /** Fewer than four bytes below the cap are lost to the boundary. */
  lemma FitWastesAtMostThree(s: string, max: nat)
    requires |Encode(s)| > max
    ensures Fit(s, max) < |s| && max - 3 <= EndOf(s, Fit(s, max)) <= max < EndOf(s, Fit(s, max) + 1)
  {
    hide EncodeChar, Fit;
    FitIsLongest(s, max);
    var k := Fit(s, max);
    assert EndOf(s, |s|) > max by {
      assert s[..|s|] == s;
    }
    assert k < |s|;
    assert s[..k + 1][..k] == s[..k];
    assert Encode(s[..k + 1]) == Encode(s[..k]) + EncodeChar(s[k]);
    assert EndOf(s, k + 1) > max;
  }

  /** The loop that both functions share. */
  method FloorCharBoundary(text: Bytes, ghost s: string, max: nat) returns (end: nat)
    requires text == Encode(s) && max < |text|
    ensures end == EndOf(s, Fit(s, max)) && end <= max && text[..end] == Encode(s[..Fit(s, max)])
  {
    hide Encode, Fit, IsContinuation;
    FitIsLongest(s, max);
    ghost var fit := EndOf(s, Fit(s, max));
    BoundaryIffPrefixEnd(s, fit) by {
      FitEndsInside(s, max);
    }
    end := max;
    while end > 0 && !IsCharBoundary(text, end)
      invariant fit <= end <= max
    {
      assert IsPrefixEnd(s, fit);
      end := end - 1;
    }
    BoundaryIffPrefixEnd(s, end);
    FloorIsFit(s, max, end);
    PrefixBytes(s, Fit(s, max));
  }

  lemma FitEndsInside(s: string, max: nat)
    ensures EndOf(s, Fit(s, max)) <= |Encode(s)|
  {
    EndsIncrease(s, Fit(s, max), |s|);
    assert s[..|s|] == s;
  }

  lemma FloorIsFit(s: string, max: nat, end: nat)
    requires EndOf(s, Fit(s, max)) <= end <= max && IsPrefixEnd(s, end)
    ensures end == EndOf(s, Fit(s, max))
  {
    hide Encode, Fit;
    var k: nat :| k <= |s| && EndOf(s, k) == end;
    FitIsLongest(s, max);
    EndsIncrease(s, k, Fit(s, max));
  }

  lemma PrefixBytes(s: string, k: nat)
    requires k <= |s|
    ensures EndOf(s, k) <= |Encode(s)| && Encode(s)[..EndOf(s, k)] == Encode(s[..k])
  {
    hide Encode;
    assert s == s[..k] + s[k..];
    EncodeConcat(s[..k], s[k..]);
  }

  function Truncated(s: string, max: nat, marker: string): string {
    if |Encode(s)| <= max then s else s[..Fit(s, max)] + "\n\n" + marker + "\n"
  }

  /** The first `k` characters are the longest prefix of at most `max` bytes. */
  ghost predicate IsLongestPrefix(s: string, k: nat, max: nat): (r: bool)
    ensures r ==> k <= |s|
  {
    && k <= |s| && |Encode(s[..k])| <= max
    && forall j: nat :: j <= |s| && |Encode(s[..j])| <= max ==> j <= k
  }

  lemma FitIsTheLongestPrefix(s: string, k: nat, max: nat)
    ensures IsLongestPrefix(s, k, max) <==> k == Fit(s, max)
  {
    hide Encode, Fit;
    FitIsLongest(s, max);
    forall j: nat | j <= |s|
      ensures |Encode(s[..j])| == EndOf(s, j)
    {
    }
  }

  /** A text cut at `max` bytes: all of it if it fits, else its longest fitting prefix, a blank
      line, the marker and a line end. */
  ghost predicate IsCut(shown: string, text: string, max: nat, marker: string) {
    && (|Encode(text)| <= max ==> shown == text)
    && (|Encode(text)| > max ==>
          exists k: nat :: IsLongestPrefix(text, k, max) && shown == text[..k] + "\n\n" + marker + "\n")
  }

  lemma TruncatedIff(shown: string, text: string, max: nat, marker: string)
    ensures shown == Truncated(text, max, marker) <==> IsCut(shown, text, max, marker)
  {
    hide Encode, Fit, IsLongestPrefix;
    FitIsTheLongestPrefix(text, Fit(text, max), max);
    forall k: nat | IsLongestPrefix(text, k, max)
      ensures k == Fit(text, max)
    {
      FitIsTheLongestPrefix(text, k, max);
    }
  }

  method TruncateWithMarker(text: Bytes, ghost s: string, max: nat, marker: Bytes, ghost m: string)
    returns (out: Bytes)
    requires text == Encode(s) && marker == Encode(m)
    ensures out == Encode(Truncated(s, max, m))
    ensures exists shown :: IsCut(shown, s, max, m) && out == Encode(shown)
  {
    TruncatedIff(Truncated(s, max, m), s, max, m);
    hide Encode, Fit, IsCut;
    if |text| <= max {
      return text;
    }
    var end := FloorCharBoundary(text, s, max);
    out := text[..end];
    EncodeConcat(s[..Fit(s, max)], "\n\n");
    out := out + Encode("\n\n");
    EncodeConcat(s[..Fit(s, max)] + "\n\n", m);
    out := out + marker;
    EncodeConcat(s[..Fit(s, max)] + "\n\n" + m, "\n");
    out := out + Encode("\n");
  }

  const CAP: nat := 1024

  /** The text of an over-long error body: its longest fitting prefix and how much is missing. */
  function Capped(s: string): string {
    if |Encode(s)| <= CAP then s
    else s[..Fit(s, CAP)] + "\U{2026} [+" + Decimal(|Encode(s[Fit(s, CAP)..])|) + " bytes]"
  }

  /** An error body cut at 1024 bytes: all of it if it fits, else its longest fitting prefix and
      the number of bytes that are missing. */
  ghost predicate IsCapped(shown: string, text: string) {
    && (|Encode(text)| <= 1024 ==> shown == text)
    && (|Encode(text)| > 1024 ==>
          exists k: nat ::
            && IsLongestPrefix(text, k, 1024)
            && shown == text[..k] + "\U{2026} [+" + Decimal(|Encode(text[k..])|) + " bytes]")
  }

  lemma CappedIff(shown: string, text: string)
    ensures shown == Capped(text) <==> IsCapped(shown, text)
  {
    hide Encode, Fit, IsLongestPrefix, Decimal;
    FitIsTheLongestPrefix(text, Fit(text, CAP), CAP);
    forall k: nat | IsLongestPrefix(text, k, 1024)
      ensures k == Fit(text, 1024)
    {
      FitIsTheLongestPrefix(text, k, 1024);
    }
  }

  method CapForError(text: Bytes, ghost s: string) returns (out: Bytes)
    requires text == Encode(s)
    ensures out == Encode(Capped(s))
    ensures exists shown :: IsCapped(shown, s) && out == Encode(shown)
  {
    CappedIff(Capped(s), s);
    hide Encode, Fit, Decimal, IsCapped;
    if |text| <= CAP {
      return text;
    }
    var cut := FloorCharBoundary(text, s, CAP);
    var missing := Decimal(|text| - cut);
    EncodeConcat(s[..Fit(s, CAP)], s[Fit(s, CAP)..]);
    assert s == s[..Fit(s, CAP)] + s[Fit(s, CAP)..];
    out := text[..cut] + Encode("\U{2026} [+") + Encode(missing) + Encode(" bytes]");
    EncodeConcat(s[..Fit(s, CAP)], "\U{2026} [+");
    EncodeConcat(s[..Fit(s, CAP)] + "\U{2026} [+", missing);
    EncodeConcat(s[..Fit(s, CAP)] + "\U{2026} [+" + missing, " bytes]");
  }
}
