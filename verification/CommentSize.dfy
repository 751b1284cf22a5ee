/** How large the comments of module Suggestions can get, in bytes of UTF-8: the purpose of the
caps in crates/ar-chat/src/handler.rs. */
module CommentSize {
  import opened Basics
  import opened Text
  import opened Suggestions
  import Utf8

  function Size(s: string): nat {
    |Utf8.Encode(s)|
  }

  lemma SizeAdds(a: string, b: string)
    ensures Size(a + b) == Size(a) + Size(b)
  {
    Utf8.EncodeConcat(a, b);
  }

  /** A character takes one to four bytes. */
  lemma {:induction false} SizeWithin(s: string)
    ensures |s| <= Size(s) <= 4 * |s|
  {
    hide Utf8.EncodeChar;
    if s != "" {
      SizeWithin(s[..|s| - 1]);
    }
  }

  lemma {:induction false} SizeOfTicks(n: nat)
    ensures Size(Ticks(n)) == n
  {
    if n > 0 {
      SizeOfTicks(n - 1);
      assert Ticks(n)[..n - 1] == Ticks(n - 1);
    }
  }

  lemma SizeOfPart(a: string, b: string, c: string)
    ensures Size(b) <= Size(a + b + c)
  {
    SizeAdds(a + b, c);
    SizeAdds(a, b);
  }

  lemma SlicesNeverGrow(s: string, k: nat)
    requires k <= |s|
    ensures Size(s[..k]) <= Size(s) && Size(s[k..]) <= Size(s)
  {
    assert s == s[..k] + s[k..];
    SizeAdds(s[..k], s[k..]);
  }

  lemma TrimNeverGrows(s: string)
    ensures Size(Trim(s)) <= Size(s)
  {
    hide TrimStart, TrimEnd, IsWhitespace, Size;
    var t := TrimStart(s);
    TrimStartIsSuffix(s);
    TrimEndIsPrefix(t);
    SlicesNeverGrow(s, |s| - |t|);
    SlicesNeverGrow(t, |TrimEnd(t)|);
  }

  /** A truncated text is at most its cap and the marker. */
  lemma TruncatedWithin(s: string, max: nat, marker: string)
    ensures Size(Utf8.Truncated(s, max, marker)) <= max + 4 * (|marker| + 3)
  {
    hide Utf8.Encode, Utf8.Fit;
    if Size(s) > max {
      Utf8.FitIsLongest(s, max);
      var kept := s[..Utf8.Fit(s, max)];
      var tail := "\n\n" + marker + "\n";
      assert kept + "\n\n" + marker + "\n" == kept + tail;
      SizeAdds(kept, tail);
      SizeWithin(tail);
    }
  }

  lemma FenceWithin(code: string)
    ensures Size(FenceFor(code)) <= Max(Size(code), 2) + 1
  {
    hide Utf8.Encode;
    LongestRunIsARun(code);
    SizeWithin(code);
    SizeOfTicks(Max(LongestRun(code), 2) + 1);
  }

  lemma FinalNewlineWithin(code: string)
    ensures Size(WithFinalNewline(code)) <= Size(code) + 4
  {
    hide Utf8.Encode;
    SizeAdds(code, "\n");
    SizeWithin("\n");
  }

  /** A fenced block takes at most three times its code and a little more. */
  lemma BlockWithin(info: string, code: string, closing: string, n: nat)
    requires Size(code) <= n && n >= 2
    ensures Size(FenceFor(code) + info + "\n" + WithFinalNewline(code) + FenceFor(code) + closing)
            <= 3 * n + 10 + 4 * |info| + 4 * |closing|
  {
    hide Size, FenceFor, WithFinalNewline;
    var fence, text := FenceFor(code), WithFinalNewline(code);
    FenceWithin(code);
    FinalNewlineWithin(code);
    SizeWithin(info + "\n");
    SizeWithin(closing);
    assert fence + info + "\n" == fence + (info + "\n");
    SizeAdds(fence, info + "\n");
    SizeAdds(fence + info + "\n", text);
    SizeAdds(fence + info + "\n" + text, fence);
    SizeAdds(fence + info + "\n" + text + fence, closing);
  }

  const SUGGESTION_LIMIT: nat := 16_384
  const SECTION_LIMIT: nat := 13_000
  const PREAMBLE_LIMIT: nat := 1_000

  /** A suggestion comment stays within 16 KiB, whatever the model puts into it. */
  lemma SuggestionIsBounded(reason: string, replacement: string)
    ensures Size(SuggestionText(reason, replacement)) <= SUGGESTION_LIMIT
  {
    hide Size, Utf8.Truncated, FenceFor, WithFinalNewline, Trim;
    var code := CappedReplacement(replacement);
    CodeWithin(replacement);
    ReasonTextWithin(reason);
    BlockWithin("suggestion", code, "", 4_288);
    var fence := FenceFor(code);
    var block := fence + "suggestion\n" + WithFinalNewline(code) + fence;
    assert fence + "suggestion" + "\n" + WithFinalNewline(code) + fence + "" == block by {
      assert "suggestion" + "\n" == "suggestion\n";
    }
    SizeAdds(ReasonText(reason), block);
  }

  lemma CodeWithin(replacement: string)
    ensures Size(CappedReplacement(replacement)) <= 4_288
  {
    hide Size, Utf8.Truncated;
    TruncatedWithin(replacement, REPLACEMENT_MAX, "[replacement truncated \U{2014} apply will not work]");
  }

  lemma ReasonTextWithin(reason: string)
    ensures Size(ReasonText(reason)) <= 1_116
  {
    hide Utf8.Encode, Utf8.Truncated, Trim;
    TruncatedWithin(reason, REASON_MAX, "[reason truncated]");
    TrimNeverGrows(CappedReason(reason));
    SizeAdds(Trim(CappedReason(reason)), "\n\n");
    SizeWithin("\n\n");
    SizeWithin("");
  }

  // ----- Scaffold comments: only the sources are capped -----

  function HeaderSizes(scaffolds: seq<TestScaffold>): nat {
    if scaffolds == [] then 0
    else HeaderSizes(scaffolds[..|scaffolds| - 1]) + Size(HeaderText(scaffolds[|scaffolds| - 1]))
  }

  lemma SourceWithin(s: TestScaffold)
    ensures Size(Code(s)) <= 4_276
  {
    hide Size, Utf8.Truncated;
    TruncatedWithin(s.source, SOURCE_MAX, "[scaffold truncated \U{2014} not directly usable]");
  }

  lemma SectionWithin(s: TestScaffold)
    ensures Size(HeaderText(s)) <= Size(SectionText(s)) <= Size(HeaderText(s)) + SECTION_LIMIT
  {
    hide Size, Code, FenceFor, WithFinalNewline, HeaderText;
    SourceWithin(s);
    var code := Code(s);
    BlockWithin("", code, "\n" + "\n", 4_276);
    var fence, text := FenceFor(code), WithFinalNewline(code);
    assert fence + "" + "\n" + text + (fence + "\n" + "\n") == fence + "" + "\n" + text + fence + ("\n" + "\n");
    SizeAdds(HeaderText(s), fence + "" + "\n" + text + (fence + "\n" + "\n"));
  }

  lemma PreambleWithin()
    ensures Size(Preamble()) <= PREAMBLE_LIMIT
  {
    hide Size;
    SizeWithin(Preamble());
  }

  /** The size of a scaffold comment is that of its headers, which nothing caps, but for at most
      a fixed amount for each scaffold. */
  lemma {:induction false} ScaffoldsAreBoundedButForHeaders(scaffolds: seq<TestScaffold>)
    ensures HeaderSizes(scaffolds) <= Size(ScaffoldsText(scaffolds))
    ensures Size(ScaffoldsText(scaffolds)) <= PREAMBLE_LIMIT + HeaderSizes(scaffolds) + |scaffolds| * SECTION_LIMIT
  {
    hide Size, SectionText, HeaderText, Preamble;
    if scaffolds == [] {
      PreambleWithin();
      assert ScaffoldsText(scaffolds) == Preamble();
    } else {
      var n := |scaffolds| - 1;
      ScaffoldsAreBoundedButForHeaders(scaffolds[..n]);
      SectionWithin(scaffolds[n]);
      SizeAdds(ScaffoldsText(scaffolds[..n]), SectionText(scaffolds[n]));
      assert ScaffoldsText(scaffolds) == ScaffoldsText(scaffolds[..n]) + SectionText(scaffolds[n]);
    }
  }

  lemma OneSection(s: TestScaffold)
    ensures ScaffoldsText([s]) == Preamble() + SectionText(s)
  {
    hide SectionText, Preamble;
    assert [s][..0] == [];
    assert Sections([s]) == "" + SectionText(s);
  }

  /** What the caller of the formatter lets through. */
  predicate IsUsable(s: TestScaffold) {
    s.itemName != "" && s.source != ""
  }

  /** Through the name of an item a comment can get as large as the model likes, for a scaffold
      that has a name and a source. */
  lemma HeadersAreNotBounded(n: nat)
    ensures exists s: TestScaffold :: IsUsable(s) && Size(ScaffoldsText([s])) > n
  {
    hide Size, FenceFor, WithFinalNewline, Preamble, Code, Trim;
    var name := Ticks(n + 1);
    SizeOfTicks(n + 1);
    var s := TestScaffold(name, "", "", "x");
    var header := HeaderText(s);
    var after := SectionText(s)[|header|..];
    OneSection(s);
    var rest := header[|"### `" + name|..];
    assert HeaderLine(s) == "### `" + name + "`";
    assert header == "### `" + name + rest;
    assert SectionText(s) == header + after;
    assert ScaffoldsText([s]) == Preamble() + "### `" + name + (rest + after);
    SizeOfPart(Preamble() + "### `", name, rest + after);
    assert IsUsable(s) && Size(ScaffoldsText([s])) > n;
  }
}
