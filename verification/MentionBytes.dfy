/** The comparisons of `strip_mention` (crates/ar-chat/src/command.rs) and of the pre-filter
(crates/ar-gateway/src/poller.rs) look at bytes of UTF-8. Here they are proved to find exactly
what module Command finds on characters, and the byte slice after a mention to be the encoding
of the characters after it. */
module MentionBytes {
  import opened Text
  import opened Command
  import opened Utf8

  // ----- Case folding on bytes -----

  /** `u8::to_ascii_lowercase`. */
  function LowerByte(b: byte): byte {
    if 65 <= b <= 90 then b + 32 else b
  }

  function LowerBytes(bytes: Bytes): (r: Bytes)
    ensures |r| == |bytes| && forall i :: 0 <= i < |bytes| ==> r[i] == LowerByte(bytes[i])
  {
    seq(|bytes|, i requires 0 <= i < |bytes| => LowerByte(bytes[i]))
  }

  /** `[u8]::eq_ignore_ascii_case`. */
  predicate EqBytesIgnoreAsciiCase(a: Bytes, b: Bytes) {
    |a| == |b| && forall i :: 0 <= i < |a| ==> LowerByte(a[i]) == LowerByte(b[i])
  }

  lemma LowerOfChar(c: char)
    ensures EncodeChar(AsciiLower(c)) == LowerBytes(EncodeChar(c))
  {
    if c as nat >= 0x80 {
      forall i | 0 <= i < |EncodeChar(c)|
        ensures LowerByte(EncodeChar(c)[i]) == EncodeChar(c)[i]
      {
      }
    }
  }

  lemma {:induction false} LowerOfEncoded(s: string)
    ensures Encode(ToAsciiLower(s)) == LowerBytes(Encode(s))
  {
    hide EncodeChar, AsciiLower, LowerByte, IsContinuation;
    if s != "" {
      var n := |s| - 1;
      LowerOfEncoded(s[..n]);
      LowerOfChar(s[n]);
      assert ToAsciiLower(s)[..n] == ToAsciiLower(s[..n]);
    }
  }

  lemma EncodeInjective(s: string, t: string)
    requires Encode(s) == Encode(t)
    ensures s == t
  {
    hide Encode, Decode;
    DecodeReadsBack(s);
    DecodeReadsBack(t);
  }

  lemma EqIsLowerEq(a: Bytes, b: Bytes)
    ensures EqBytesIgnoreAsciiCase(a, b) <==> LowerBytes(a) == LowerBytes(b)
  {
    hide LowerByte;
    if LowerBytes(a) == LowerBytes(b) {
      forall i | 0 <= i < |a|
        ensures LowerByte(a[i]) == LowerByte(b[i])
      {
        assert LowerBytes(a)[i] == LowerBytes(b)[i];
      }
    }
  }

  lemma EqCharsIsLowerEq(s: string, t: string)
    ensures EqIgnoreAsciiCase(s, t) <==> ToAsciiLower(s) == ToAsciiLower(t)
  {
    hide AsciiLower;
    if ToAsciiLower(s) == ToAsciiLower(t) {
      forall i | 0 <= i < |s|
        ensures AsciiLower(s[i]) == AsciiLower(t[i])
      {
        assert ToAsciiLower(s)[i] == ToAsciiLower(t)[i];
      }
    }
  }

  /** Ignoring ASCII case means the same on bytes as on characters. */
  lemma EqBytesIffEqChars(s: string, t: string)
    ensures EqBytesIgnoreAsciiCase(Encode(s), Encode(t)) <==> EqIgnoreAsciiCase(s, t)
  {
    hide Encode, LowerBytes, ToAsciiLower, EqIgnoreAsciiCase, EqBytesIgnoreAsciiCase;
    EqIsLowerEq(Encode(s), Encode(t));
    EqCharsIsLowerEq(s, t);
    LowerOfEncoded(s);
    LowerOfEncoded(t);
    if Encode(ToAsciiLower(s)) == Encode(ToAsciiLower(t)) {
      EncodeInjective(ToAsciiLower(s), ToAsciiLower(t));
    }
  }

  // ----- A prefix of bytes is a prefix of characters -----

  lemma EncodeCons(c: char, rest: string)
    ensures Encode([c] + rest) == EncodeChar(c) + Encode(rest)
  {
    hide EncodeChar;
    EncodeConcat([c], rest);
    EncodeNothing();
    EncodeSnoc("", c);
    assert "" + [c] == [c];
  }

  lemma FirstCharIsFound(c: char, rest: Bytes, s: string)
    requires s != "" && EncodeChar(c) + rest == Encode(s)
    ensures s[0] == c && rest == Encode(s[1..])
  {
    hide EncodeChar, DecodeFirst, Encode;
    assert s == [s[0]] + s[1..];
    EncodeCons(s[0], s[1..]);
    DecodeFirstReadsBack(c, rest);
    DecodeFirstReadsBack(s[0], Encode(s[1..]));
    assert (EncodeChar(c) + rest)[|EncodeChar(c)|..] == rest;
  }

  lemma {:induction false} BytePrefixIsPrefix(t: string, rest: Bytes, s: string)
    requires Encode(t) + rest == Encode(s)
    ensures t <= s && rest == Encode(s[|t|..])
    decreases |t|
  {
    hide EncodeChar, Encode;
    EncodeNothing();
    if t == "" {
      assert s[0..] == s;
    } else {
      var c, u := t[0], t[1..];
      assert t == [c] + u;
      EncodeCons(c, u);
      assert EncodeChar(c) + (Encode(u) + rest) == Encode(s);
      FirstCharIsFound(c, Encode(u) + rest, s);
      BytePrefixIsPrefix(u, rest, s[1..]);
      assert s == [c] + s[1..];
      assert s[|t|..] == s[1..][|u|..];
    }
  }

  // ----- strip_mention -----

  /** `strip_mention` on bytes: `get(..n)`, the comparison, and the slice after it. */
  function StripMentionBytes(line: Bytes, mention: Bytes): Option<Bytes> {
    if |mention| <= |line| && EqBytesIgnoreAsciiCase(line[..|mention|], mention)
    then Some(line[|mention|..]) else None
  }

  lemma SamePrefixBytes(line: string, n: nat, mention: string)
    requires n == |Encode(mention)| <= |Encode(line)|
    requires EqBytesIgnoreAsciiCase(Encode(line)[..n], Encode(mention))
    ensures StripMention(line, mention).Some? && Encode(line)[n..] == Encode(line[|mention|..])
  {
    hide Encode, ToAsciiLower, LowerBytes, EqBytesIgnoreAsciiCase, EqIgnoreAsciiCase;
    var lower, low := ToAsciiLower(mention), ToAsciiLower(line);
    LowerOfEncoded(mention);
    LowerOfEncoded(line);
    EqIsLowerEq(Encode(line)[..n], Encode(mention));
    LowerOfSlices(Encode(line), n);
    BytePrefixIsPrefix(lower, LowerBytes(Encode(line)[n..]), low);
    var head := line[..|mention|];
    LowerOfPrefix(line, |mention|);
    EqCharsIsLowerEq(head, mention);
    LowerOfEncoded(head);
    assert line == head + line[|mention|..];
    EncodeConcat(head, line[|mention|..]);
  }

  lemma LowerOfSlices(bytes: Bytes, n: nat)
    requires n <= |bytes|
    ensures LowerBytes(bytes) == LowerBytes(bytes[..n]) + LowerBytes(bytes[n..])
  {
    hide LowerByte;
  }

  lemma LowerOfPrefix(s: string, n: nat)
    requires n <= |s|
    ensures ToAsciiLower(s)[..n] == ToAsciiLower(s[..n])
  {
    hide AsciiLower;
  }

  /** The byte version strips the mention exactly when the character version does, and what it
      leaves is the encoding of the rest: the slice never splits a character. */
  lemma StripMentionIsOnBytes(line: string, mention: string)
    ensures StripMentionBytes(Encode(line), Encode(mention))
            == match StripMention(line, mention) case Some(rest) => Some(Encode(rest)) case None => None
  {
    hide Encode, EqBytesIgnoreAsciiCase, EqIgnoreAsciiCase;
    if StripMention(line, mention).Some? {
      var head, rest := line[..|mention|], line[|mention|..];
      EqBytesIffEqChars(head, mention);
      assert line == head + rest;
      EncodeConcat(head, rest);
      SameSize(head, mention);
      assert Encode(line)[..|Encode(mention)|] == Encode(head);
    } else if StripMentionBytes(Encode(line), Encode(mention)).Some? {
      SamePrefixBytes(line, |Encode(mention)|, mention);
    }
  }

  lemma SameSize(s: string, t: string)
    requires EqIgnoreAsciiCase(s, t)
    ensures |Encode(s)| == |Encode(t)|
  {
    EqBytesIffEqChars(s, t);
    hide Encode, EqIgnoreAsciiCase;
  }

  // ----- The windows of the pre-filter -----

  predicate MatchesBytesAt(body: Bytes, needle: Bytes, i: nat) {
    i + |needle| <= |body| && EqBytesIgnoreAsciiCase(body[i..i + |needle|], needle)
  }

  /** `body.windows(n).any(|w| w.eq_ignore_ascii_case(needle))`. */
  predicate ContainsBytes(body: Bytes, needle: Bytes) {
    exists i: nat :: i <= |body| && MatchesBytesAt(body, needle, i)
  }

  lemma WindowIsStripped(body: string, needle: string, k: nat)
    requires k <= |body|
    ensures MatchesAt(body, needle, k) <==> StripMention(body[k..], needle).Some?
    ensures MatchesBytesAt(Encode(body), Encode(needle), EndOf(body, k))
            <==> StripMentionBytes(Encode(body[k..]), Encode(needle)).Some?
  {
    hide Encode, EqBytesIgnoreAsciiCase, EqIgnoreAsciiCase;
    var e, n := EndOf(body, k), |Encode(needle)|;
    assert body == body[..k] + body[k..];
    EncodeConcat(body[..k], body[k..]);
    if k + |needle| <= |body| {
      assert body[k..][..|needle|] == body[k..k + |needle|];
    }
    if e + n <= |Encode(body)| {
      assert Encode(body)[e..e + n] == Encode(body[k..])[..n];
    }
  }

  lemma FirstByteOfMention(botName: string)
    ensures |Encode(Mention(botName))| > 0 && Encode(Mention(botName))[0] == 64
  {
    EncodeCons('@', botName);
    hide Encode;
    assert Mention(botName) == ['@'] + botName;
  }

  /** A needle that begins with an ASCII character is found at the beginning of a character. */
  lemma WindowIsBoundary(body: string, needle: Bytes, i: nat)
    requires needle != [] && needle[0] < 0x80 && MatchesBytesAt(Encode(body), needle, i)
    ensures IsPrefixEnd(body, i)
  {
    hide Encode, IsPrefixEnd;
    assert LowerByte(Encode(body)[i..i + |needle|][0]) == LowerByte(needle[0]);
    BoundaryIffPrefixEnd(body, i);
  }

  lemma ContainsIffContainsBytes(body: string, needle: string)
    requires Encode(needle) != [] && Encode(needle)[0] < 0x80
    ensures ContainsIgnoreAsciiCase(body, needle) <==> ContainsBytes(Encode(body), Encode(needle))
  {
    hide Encode, MatchesAt, MatchesBytesAt, StripMention, StripMentionBytes;
    if ContainsIgnoreAsciiCase(body, needle) {
      var k: nat :| k <= |body| && MatchesAt(body, needle, k);
      WindowIsStripped(body, needle, k);
      StripMentionIsOnBytes(body[k..], needle);
      PrefixBytes(body, k);
      assert MatchesBytesAt(Encode(body), Encode(needle), EndOf(body, k));
    }
    if ContainsBytes(Encode(body), Encode(needle)) {
      var i: nat :| i <= |Encode(body)| && MatchesBytesAt(Encode(body), Encode(needle), i);
      WindowIsBoundary(body, Encode(needle), i);
      var k: nat :| k <= |body| && EndOf(body, k) == i;
      WindowIsStripped(body, needle, k);
      StripMentionIsOnBytes(body[k..], needle);
      assert MatchesAt(body, needle, k);
    }
  }

  /** The pre-filter as the poller computes it, on the bytes of body and name. */
  predicate PreFilterBytes(body: Bytes, botName: string) {
    || ContainsBytes(body, Encode(Mention(botName)))
    || (botName == "auto-review" && ContainsBytes(body, Encode("@auto_review")))
  }

  lemma PreFilterIsOnBytes(body: string, botName: string)
    ensures PreFilterBytes(Encode(body), botName) <==> PreFilter(body, botName)
  {
    hide Encode, ContainsBytes, ContainsIgnoreAsciiCase;
    FirstByteOfMention(botName);
    FirstByteOfMention("auto_review");
    assert "@auto_review" == Mention("auto_review");
    ContainsIffContainsBytes(body, Mention(botName));
    ContainsIffContainsBytes(body, "@auto_review");
  }
}
