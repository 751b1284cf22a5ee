/** The fenced comments of crates/ar-chat/src/handler.rs: suggestion blocks and test scaffolds,
written so that a CommonMark reader gets the code back. */
module Suggestions {
  import opened Basics
  import opened Text
  import opened Fences
  import Utf8

  // ----- Picking a fence -----

  predicate RunAt(s: string, i: nat, n: nat) {
    i + n <= |s| && forall j :: i <= j < i + n ==> s[j] == '`'
  }

  function TrailingRun(s: string): (n: nat)
    ensures n <= |s| && RunAt(s, |s| - n, n)
    ensures n < |s| ==> s[|s| - 1 - n] != '`'
  {
    if s == "" || s[|s| - 1] != '`' then 0 else TrailingRun(s[..|s| - 1]) + 1
  }

  function LongestRun(s: string): nat {
    if s == "" then 0 else Max(LongestRun(s[..|s| - 1]), TrailingRun(s))
  }

  method LongestBacktickRun(body: string) returns (max: nat)
    ensures max == LongestRun(body)
  {
    max := 0;
    var current := 0;
    for i := 0 to |body|
      invariant current == TrailingRun(body[..i]) && max == LongestRun(body[..i])
      invariant current <= max
    {
      assert body[..i + 1][..i] == body[..i];
      if body[i] == '`' {
        current := current + 1;
        if current > max {
          max := current;
        }
      } else {
        current := 0;
      }
    }
    assert body[..|body|] == body;
  }

  ghost predicate HasRun(s: string, n: nat) {
    exists i: nat :: RunAt(s, i, n)
  }

  lemma {:induction false} LongestRunIsARun(s: string)
    ensures HasRun(s, LongestRun(s))
  {
    if s == "" {
      assert RunAt(s, 0, 0);
    } else {
      var k := |s| - 1;
      LongestRunIsARun(s[..k]);
      if LongestRun(s) == TrailingRun(s) {
        var i: nat := |s| - TrailingRun(s);
        assert RunAt(s, i, LongestRun(s));
      } else {
        var i: nat :| RunAt(s[..k], i, LongestRun(s[..k]));
        assert RunAt(s, i, LongestRun(s));
      }
    }
  }

  lemma {:induction false} NoRunIsLonger(s: string, i: nat, n: nat)
    requires RunAt(s, i, n)
    ensures n <= LongestRun(s)
  {
    if s != "" {
      var k := |s| - 1;
      if i + n <= k {
        assert RunAt(s[..k], i, n);
        NoRunIsLonger(s[..k], i, n);
      } else {
        var t := TrailingRun(s);
        assert t < |s| ==> s[k - t] != '`';
      }
    }
  }

  lemma LongestRunIsLongest(s: string, n: nat)
    ensures HasRun(s, LongestRun(s)) && (HasRun(s, n) ==> n <= LongestRun(s))
  {
    LongestRunIsARun(s);
    if i: nat :| RunAt(s, i, n) {
      NoRunIsLonger(s, i, n);
    }
  }

  function Ticks(n: nat): string {
    seq(n, _ => '`')
  }

  function FenceFor(body: string): string {
    Ticks(Max(LongestRun(body), 2) + 1)
  }

  method PickFence(body: string) returns (fence: string)
    ensures fence == FenceFor(body)
    ensures |fence| >= 3 && !HasRun(body, |fence|)
  {
    var maxInternal := LongestBacktickRun(body);
    fence := Ticks(Max(maxInternal, 2) + 1);
    LongestRunIsLongest(body, |fence|);
  }

  // ----- No line of the code closes its fence -----

  lemma {:induction false} RunOfALine(s: string, k: nat, i: nat, n: nat)
    requires k < |RawLines(s)| && RunAt(RawLines(s)[k], i, n)
    ensures HasRun(s, n)
    decreases k
  {
    hide BodyLength, LineLength;
    var cut := LineLength(s);
    if k == 0 {
      assert RunAt(s, i, n);
    } else {
      RunOfALine(s[cut..], k - 1, i, n);
      var j: nat :| RunAt(s[cut..], j, n);
      assert RunAt(s, cut + j, n);
    }
  }

  function WithFinalNewline(code: string): string {
    if code != "" && code[|code| - 1] == '\n' then code else code + "\n"
  }

  lemma SourceHasNoFence(code: string)
    ensures !HasRun(WithFinalNewline(code), |FenceFor(code)|)
  {
    var text, n := WithFinalNewline(code), |FenceFor(code)|;
    if i: nat :| RunAt(text, i, n) {
      assert text[i + n - 1] == '`' && i + n <= |code|;
      assert RunAt(code, i, n) by {
        assert forall j :: 0 <= j < |code| ==> code[j] == text[j];
      }
      LongestRunIsLongest(code, n);
      assert false;
    }
  }

  lemma NoLineCloses(code: string, k: nat, fence: Fence)
    requires k < |RawLines(WithFinalNewline(code))|
    requires fence.c == '`' && fence.length == |FenceFor(code)|
    ensures !Closes(RawLines(WithFinalNewline(code))[k], fence)
  {
    hide RawLines, LongestRun;
    var text := WithFinalNewline(code);
    var line := RawLines(text)[k];
    if Closes(line, fence) {
      var i := LeadingRun(Body(line), ' ');
      assert RunAt(Body(line), i, fence.length);
      assert RunAt(line, i, fence.length);
      RunOfALine(text, k, i, fence.length);
      SourceHasNoFence(code);
      assert false;
    }
  }

  // ----- The fence lines -----

  lemma {:induction false} LeadingRunIs(s: string, c: char, n: nat)
    requires n <= |s| && (forall i :: 0 <= i < n ==> s[i] == c) && (n < |s| ==> s[n] != c)
    ensures LeadingRun(s, c) == n
  {
    if n > 0 {
      LeadingRunIs(s[1..], c, n - 1);
    }
  }

  function TickFence(n: nat, info: string): Fence {
    Fence('`', n, 0, info)
  }

  /** A line of `n` backticks and an info string, with or without its line end. */
  predicate IsFenceLine(line: string, n: nat, info: string) {
    && n >= 3 && NoEol(info) && (info != "" ==> 'a' <= info[0] <= 'z') && '`' !in info
    && (line == Ticks(n) + info || line == Ticks(n) + info + "\n")
  }

  lemma FenceLineBody(line: string, n: nat, info: string)
    requires IsFenceLine(line, n, info)
    ensures Body(line) == Ticks(n) + info
    ensures LeadingRun(line, ' ') == 0 && LeadingRun(Body(line), ' ') == 0
    ensures LeadingRun(Body(line), '`') == n
  {
    var t := Ticks(n) + info;
    RawLinesOfLine(t);
    LeadingRunIs(t, ' ', 0);
    LeadingRunIs(line, ' ', 0);
    LeadingRunIs(t, '`', n);
  }

  lemma FenceLineOpens(line: string, n: nat, info: string)
    requires IsFenceLine(line, n, info)
    ensures Opening(line) == Some(TickFence(n, info))
  {
    hide BodyLength, LeadingRun;
    FenceLineBody(line, n, info);
    assert Body(line)[0..] == Body(line);
  }

  lemma BareFenceLineCloses(line: string, n: nat, info: string)
    requires IsFenceLine(line, n, "")
    ensures Closes(line, TickFence(n, info))
  {
    hide BodyLength, LeadingRun;
    FenceLineBody(line, n, "");
    assert Body(line)[0..] == Body(line);
  }

  lemma InfoLineClosesNothing(line: string, n: nat, info: string, fence: Fence)
    requires IsFenceLine(line, n, info) && info != "" && fence.length > 0
    ensures !Closes(line, fence)
  {
    FenceLineBody(line, n, info);
    var body := Body(line);
    assert body[0..] == body && body[n] == info[0];
    hide BodyLength;
    if fence.c == '`' {
      assert body[n..][0] == info[0];
    } else {
      LeadingRunIs(body, fence.c, 0);
    }
  }

  // ----- Reading one block back -----

  lemma {:induction false} ReadInside(lines: seq<string>, r: Reader)
    requires r.open.Some? && r.open.value.indent == 0
    requires forall i :: 0 <= i < |lines| ==> !Closes(lines[i], r.open.value)
    ensures Read(lines, r) == r.(content := r.content + Join(lines))
  {
    hide Closes, Opening;
    if lines != [] {
      var n := |lines| - 1;
      ReadInside(lines[..n], r);
      assert Unindent(lines[n], 0) == lines[n];
    }
  }

  function BlockLines(info: string, code: string, closing: string): seq<string> {
    [FenceFor(code) + info + "\n"] + RawLines(WithFinalNewline(code)) + [closing]
  }

  /** Outside of any fence, a printed block is read as one block with the same code. */
  lemma BlockReadsBack(info: string, code: string, closing: string, r: Reader)
    requires r.open == None
    requires IsFenceLine(FenceFor(code) + info + "\n", |FenceFor(code)|, info)
    requires IsFenceLine(closing, |FenceFor(code)|, "")
    ensures Read(BlockLines(info, code, closing), r) == Reader(r.done + [Block(info, WithFinalNewline(code))], None, "")
  {
    hide RawLines, Read, Opening, Closes, FenceFor, IsFenceLine, WithFinalNewline, Join;
    var text, n := WithFinalNewline(code), |FenceFor(code)|;
    var first := FenceFor(code) + info + "\n";
    FenceLineOpens(first, n, info);
    var inside := Reader(r.done, Some(TickFence(n, info)), "");
    ReadConcat([first] + RawLines(text), [closing], r);
    ReadConcat([first], RawLines(text), r);
    ReadOne(first, r);
    assert Step(r, first) == inside;
    forall k | 0 <= k < |RawLines(text)|
      ensures !Closes(RawLines(text)[k], inside.open.value)
    {
      NoLineCloses(code, k, inside.open.value);
    }
    ReadInside(RawLines(text), inside);
    JoinOfRawLines(text);
    BareFenceLineCloses(closing, n, info);
    var full := inside.(content := text);
    assert "" + text == text;
    assert Read(RawLines(text), inside) == full;
    ReadOne(closing, full);
    assert Step(full, closing) == Reader(r.done + [Block(info, text)], None, "");
  }

  // ----- Suggestion blocks -----

  const REASON_MAX: nat := 1_024
  const REPLACEMENT_MAX: nat := 4_096
  const SOURCE_MAX: nat := 4_096

  function CappedReason(reason: string): string {
    Utf8.Truncated(reason, REASON_MAX, "[reason truncated]")
  }

  function CappedReplacement(replacement: string): string {
    Utf8.Truncated(replacement, REPLACEMENT_MAX, "[replacement truncated \U{2014} apply will not work]")
  }

  /** The reason as it stands above the block, ending its lines. */
  function ReasonText(reason: string): string {
    var t := Trim(CappedReason(reason));
    if t == "" then "" else t + "\n\n"
  }

  function SuggestionText(reason: string, replacement: string): string {
    var code := CappedReplacement(replacement);
    ReasonText(reason) + (FenceFor(code) + "suggestion\n" + WithFinalNewline(code) + FenceFor(code))
  }

  method FormatSuggestionBody(reason: string, replacement: string) returns (out: string)
    ensures out == SuggestionText(reason, replacement)
    ensures IsSuggestionComment(out, reason, replacement)
  {
    SuggestionIsShown(reason, replacement);
    hide Trim, CappedReason, CappedReplacement, FenceFor, IsSuggestionComment;
    var cappedReason, code := CappedReason(reason), CappedReplacement(replacement);
    out := "";
    if Trim(cappedReason) != "" {
      out := out + Trim(cappedReason);
      out := out + "\n\n";
    }
    ghost var start := out;
    var fence := PickFence(code);
    out := out + fence;
    out := out + "suggestion\n";
    out := out + code;
    if !(code != "" && code[|code| - 1] == '\n') {
      out := out + "\n";
    }
    out := out + fence;
    assert out == start + (fence + "suggestion\n" + WithFinalNewline(code) + fence);
  }

  lemma FenceForIsFenceLine(code: string, info: string)
    requires info == "" || info == "suggestion"
    ensures IsFenceLine(FenceFor(code) + info + "\n", |FenceFor(code)|, info)
    ensures IsFenceLine(FenceFor(code), |FenceFor(code)|, "")
    ensures IsFenceLine(FenceFor(code) + "\n", |FenceFor(code)|, "")
  {
    hide LongestRun;
    assert FenceFor(code) + "" == FenceFor(code);
  }

  lemma TicksHaveNoEol(n: nat)
    ensures NoEol(Ticks(n))
  {
  }

  lemma FenceLineAlone(code: string, info: string)
    requires info == "" || info == "suggestion"
    ensures RawLines(FenceFor(code) + info + "\n") == [FenceFor(code) + info + "\n"]
  {
    assert NoEol(info);
    hide LongestRun, RawLines;
    TicksHaveNoEol(|FenceFor(code)|);
    RawLinesOfLine(FenceFor(code) + info);
  }

  /** The printed text of a block is read line by line as `BlockLines`. */
  lemma BlockTextLines(info: string, code: string, tail: string)
    requires info == "" || info == "suggestion"
    ensures RawLines(FenceFor(code) + info + "\n" + WithFinalNewline(code) + tail)
            == [FenceFor(code) + info + "\n"] + RawLines(WithFinalNewline(code)) + RawLines(tail)
  {
    hide FenceFor, WithFinalNewline, RawLines;
    var first, text := FenceFor(code) + info + "\n", WithFinalNewline(code);
    FenceLineAlone(code, info);
    RawLinesConcat(first, text + tail);
    WithFinalNewlineEnds(code);
    RawLinesConcat(text, tail);
    assert first + (text + tail) == first + text + tail;
  }

  lemma WithFinalNewlineEnds(code: string)
    ensures EndsLine(WithFinalNewline(code))
  {
  }

  lemma ReasonTextEnds(reason: string)
    ensures EndsLine(ReasonText(reason))
  {
    hide Trim, CappedReason;
  }

  lemma SuggestionLines(reason: string, replacement: string)
    ensures RawLines(SuggestionText(reason, replacement))
            == RawLines(ReasonText(reason))
               + BlockLines("suggestion", CappedReplacement(replacement), FenceFor(CappedReplacement(replacement)))
  {
    hide Trim, CappedReason, CappedReplacement, RawLines, FenceFor, WithFinalNewline;
    var code := CappedReplacement(replacement);
    var block := FenceFor(code) + "suggestion\n" + WithFinalNewline(code) + FenceFor(code);
    ReasonTextEnds(reason);
    RawLinesConcat(ReasonText(reason), block);
    BlockTextLines("suggestion", code, FenceFor(code));
    assert FenceFor(code) + "suggestion\n" == FenceFor(code) + "suggestion" + "\n";
    FenceAlone(code);
  }

  lemma FenceAlone(code: string)
    ensures RawLines(FenceFor(code)) == [FenceFor(code)]
  {
    hide LongestRun, RawLines;
    TicksHaveNoEol(|FenceFor(code)|);
    RawLinesOfLine(FenceFor(code));
  }

  /** The reason opens no fence that it does not close. */
  predicate ReasonClosesItsFences(reason: string) {
    Read(RawLines(ReasonText(reason)), START).open == None
  }

  /** A fence left open before the block takes in the block's opening line. */
  lemma OpenFenceSwallows(line: string, rest: seq<string>, r: Reader, n: nat, info: string)
    requires r.open.Some? && r.open.value.length > 0 && IsFenceLine(line, n, info)
    requires !Closes(line, r.open.value)
    ensures var after := Finish(Read([line] + rest, r));
            |after| > |r.done| && r.content + line <= after[|r.done|].content
  {
    hide Closes, Opening, IsFenceLine, Read;
    ReadConcat([line], rest, r);
    ReadOne(line, r);
    FenceLineBody(line, n, info);
    var swallowed := r.(content := r.content + line);
    assert Step(r, line) == swallowed;
    ReadExtends(rest, swallowed);
    assert Finish(swallowed)[|r.done|].content == r.content + line;
  }

  /** A reader sees the blocks of the reason and then the replacement, exactly, as a
      suggestion, if and only if the reason closes the fences that it opens. */
  lemma SuggestionReadsBackIff(reason: string, replacement: string)
    ensures Blocks(SuggestionText(reason, replacement))
            == Blocks(ReasonText(reason)) + [Block("suggestion", WithFinalNewline(CappedReplacement(replacement)))]
            <==> ReasonClosesItsFences(reason)
  {
    hide Trim, CappedReason, CappedReplacement, RawLines, FenceFor, WithFinalNewline, ReasonText, SuggestionText;
    hide IsFenceLine, Read;
    var code := CappedReplacement(replacement);
    var r := Read(RawLines(ReasonText(reason)), START);
    SuggestionLines(reason, replacement);
    var lines := BlockLines("suggestion", code, FenceFor(code));
    ReadConcat(RawLines(ReasonText(reason)), lines, START);
    FenceForIsFenceLine(code, "suggestion");
    if r.open == None {
      BlockReadsBack("suggestion", code, FenceFor(code), r);
    } else {
      assert lines == [FenceFor(code) + "suggestion" + "\n"] + (RawLines(WithFinalNewline(code)) + [FenceFor(code)]);
      OpenFenceIsLong(RawLines(ReasonText(reason)));
      InfoLineClosesNothing(FenceFor(code) + "suggestion" + "\n", |FenceFor(code)|, "suggestion", r.open.value);
      OpenFenceSwallows(FenceFor(code) + "suggestion" + "\n", RawLines(WithFinalNewline(code)) + [FenceFor(code)], r,
                        |FenceFor(code)|, "suggestion");
      assert Finish(r)[|r.done|].content == r.content;
    }
  }

  /** What a block shows of a text that is cut at `max` bytes: the text with its last line ended, or
      its longest fitting prefix, a blank line and the marker. */
  ghost predicate ShowsCut(content: string, text: string, max: nat, marker: string) {
    && (|Utf8.Encode(text)| <= max ==>
          content == text + if text != "" && text[|text| - 1] == '\n' then "" else "\n")
    && (|Utf8.Encode(text)| > max ==>
          exists k: nat :: Utf8.IsLongestPrefix(text, k, max) && content == text[..k] + "\n\n" + marker + "\n")
  }

  lemma MarkedTextEnds(front: string, marker: string)
    ensures WithFinalNewline(front + "\n\n" + marker + "\n") == front + "\n\n" + marker + "\n"
  {
  }

  lemma ShownIsCut(text: string, max: nat, marker: string)
    ensures ShowsCut(WithFinalNewline(Utf8.Truncated(text, max, marker)), text, max, marker)
  {
    hide Utf8.Encode, Utf8.Truncated, Utf8.IsLongestPrefix;
    Utf8.TruncatedIff(Utf8.Truncated(text, max, marker), text, max, marker);
    if |Utf8.Encode(text)| > max {
      var k: nat :| Utf8.IsLongestPrefix(text, k, max)
                    && Utf8.Truncated(text, max, marker) == text[..k] + "\n\n" + marker + "\n";
      MarkedTextEnds(text[..k], marker);
    }
  }

  lemma CutIsShown(content: string, text: string, max: nat, marker: string)
    requires ShowsCut(content, text, max, marker)
    ensures content == WithFinalNewline(Utf8.Truncated(text, max, marker))
  {
    hide Utf8.Encode, Utf8.Truncated, Utf8.IsLongestPrefix;
    if |Utf8.Encode(text)| > max {
      var k: nat :| Utf8.IsLongestPrefix(text, k, max) && content == text[..k] + "\n\n" + marker + "\n";
      Utf8.TruncatedIff(content, text, max, marker);
      MarkedTextEnds(text[..k], marker);
    } else {
      Utf8.TruncatedIff(text, text, max, marker);
    }
  }

  /** The block that a reviewer can apply. */
  ghost predicate ShowsReplacement(block: Block, replacement: string) {
    && block.info == "suggestion"
    && ShowsCut(block.content, replacement, 4096, "[replacement truncated \U{2014} apply will not work]")
  }

  lemma ShowsReplacementIff(block: Block, replacement: string)
    ensures ShowsReplacement(block, replacement)
            <==> block == Block("suggestion", WithFinalNewline(CappedReplacement(replacement)))
  {
    hide ShowsCut, WithFinalNewline, Utf8.Truncated;
    var marker := "[replacement truncated \U{2014} apply will not work]";
    ShownIsCut(replacement, 4096, marker);
    if ShowsCut(block.content, replacement, 4096, marker) {
      CutIsShown(block.content, replacement, 4096, marker);
    }
  }

  /** What stands above the block: the reason, cut at 1024 bytes and trimmed, and a blank line. */
  ghost predicate IsReasonAbove(front: string, reason: string) {
    exists shown :: Utf8.IsCut(shown, reason, 1024, "[reason truncated]")
                    && front == if Trim(shown) == "" then "" else Trim(shown) + "\n\n"
  }

  /** `blocks` are those of the text above and then the replacement. */
  ghost predicate ShowsSuggestion(blocks: seq<Block>, front: string, replacement: string) {
    exists last :: blocks == Blocks(front) + [last] && ShowsReplacement(last, replacement)
  }

  lemma ShowsSuggestionIff(blocks: seq<Block>, front: string, replacement: string)
    ensures ShowsSuggestion(blocks, front, replacement)
            <==> blocks == Blocks(front) + [Block("suggestion", WithFinalNewline(CappedReplacement(replacement)))]
  {
    hide Blocks, ShowsReplacement, WithFinalNewline, CappedReplacement;
    var block := Block("suggestion", WithFinalNewline(CappedReplacement(replacement)));
    ShowsReplacementIff(block, replacement);
    forall last | ShowsReplacement(last, replacement)
      ensures last == block
    {
      ShowsReplacementIff(last, replacement);
    }
  }

  /** The reason stands above, and there is one more block below it that is the replacement,
      exactly, if and only if the reason closes the fences that it opens. */
  ghost predicate IsSuggestionComment(text: string, reason: string, replacement: string) {
    exists front ::
      && IsReasonAbove(front, reason) && front <= text
      && (ShowsSuggestion(Blocks(text), front, replacement) <==> Read(RawLines(front), START).open == None)
  }

  lemma SuggestionIsShown(reason: string, replacement: string)
    ensures IsSuggestionComment(SuggestionText(reason, replacement), reason, replacement)
  {
    hide Trim, Utf8.Truncated, Utf8.IsCut, Blocks, Read, RawLines, WithFinalNewline, FenceFor, ShowsSuggestion;
    var front := ReasonText(reason);
    Utf8.TruncatedIff(CappedReason(reason), reason, 1024, "[reason truncated]");
    SuggestionReadsBackIff(reason, replacement);
    ShowsSuggestionIff(Blocks(SuggestionText(reason, replacement)), front, replacement);
  }

  /** For a reason of one line it is enough to look at that line. */
  lemma OneLineReasonIff(reason: string)
    requires NoEol(Trim(CappedReason(reason))) && Trim(CappedReason(reason)) != ""
    ensures ReasonClosesItsFences(reason) <==> Opening(Trim(CappedReason(reason)) + "\n") == None
  {
    hide Trim, CappedReason, RawLines, Read, Opening, NoEol, Closes;
    var t := Trim(CappedReason(reason));
    var line := t + "\n";
    RawLinesOfLine(t);
    EmptyLineIsBlank();
    RawLinesConcat(line, "\n");
    assert ReasonText(reason) == line + "\n";
    assert [line] + ["\n"] == [line, "\n"];
    ReadConcat([line], ["\n"], START);
    ReadOne(line, START);
    ReadOne("\n", Step(START, line));
    if Opening(line).Some? {
      OpenFenceIsLong([line]);
      BlankLineClosesNothing(Opening(line).value);
    }
  }

  lemma EmptyLineIsBlank()
    ensures RawLines("\n") == ["\n"] && Body("\n") == "" && Opening("\n") == None
  {
    hide RawLines;
    RawLinesOfLine("");
    assert "" + "\n" == "\n";
  }

  lemma BlankLineClosesNothing(fence: Fence)
    requires fence.length > 0
    ensures !Closes("\n", fence)
  {
    EmptyLineIsBlank();
  }

  // ----- Test scaffolds -----

  datatype TestScaffold = TestScaffold(itemName: string, itemPath: string, framework: string, source: string)

  function Code(s: TestScaffold): string {
    Utf8.Truncated(s.source, SOURCE_MAX, "[scaffold truncated \U{2014} not directly usable]")
  }

  function HeaderLine(s: TestScaffold): string {
    "### `" + (s.itemName + if s.itemPath == "" then "`" else "` (in `" + s.itemPath + "`)")
  }

  function FrameworkLine(s: TestScaffold): string {
    "Framework: `" + Trim(s.framework) + "`"
  }

  function HeaderText(s: TestScaffold): string {
    HeaderLine(s) + "\n" + if Trim(s.framework) != "" then FrameworkLine(s) + "\n" + "\n" else "\n"
  }

  function SectionText(s: TestScaffold): string {
    HeaderText(s) + (FenceFor(Code(s)) + "" + "\n" + WithFinalNewline(Code(s)) + (FenceFor(Code(s)) + "\n" + "\n"))
  }

  function Sections(scaffolds: seq<TestScaffold>): string {
    if scaffolds == [] then "" else Sections(scaffolds[..|scaffolds| - 1]) + SectionText(scaffolds[|scaffolds| - 1])
  }

  function Title(): string {
    "**Test scaffolds**"
  }

  function Explanation(): string {
    "Below are scaffolded tests for items "
    + ("in this PR that look like they could use "
       + ("coverage. Tests usually live in a "
          + ("separate file, so these are copy-paste-" + "ready rather than inline suggestions.")))
  }

  function Preamble(): string {
    Title() + "\n" + "\n" + (Explanation() + "\n" + "\n")
  }

  function ScaffoldsText(scaffolds: seq<TestScaffold>): string {
    Preamble() + Sections(scaffolds)
  }

  lemma HeaderWritten(start: string, s: TestScaffold)
    ensures start + HeaderText(s)
            == start + HeaderLine(s) + "\n" + if Trim(s.framework) != "" then FrameworkLine(s) + "\n\n" else "\n"
  {
    hide Trim, FrameworkLine, HeaderLine;
  }

  lemma SectionWritten(start: string, s: TestScaffold)
    ensures start + SectionText(s)
            == start + HeaderText(s) + FenceFor(Code(s)) + "\n" + WithFinalNewline(Code(s)) + FenceFor(Code(s)) + "\n\n"
  {
    hide HeaderText, FenceFor, WithFinalNewline, Code;
    var fence := FenceFor(Code(s));
    assert fence + "" == fence;
    assert SectionText(s) == HeaderText(s) + (fence + "\n" + WithFinalNewline(Code(s)) + (fence + "\n" + "\n"));
  }

  method FormatTestScaffoldsBody(scaffolds: seq<TestScaffold>) returns (out: string)
    ensures out == ScaffoldsText(scaffolds)
    ensures ShowSources(Blocks(out), scaffolds) <==> forall i :: 0 <= i < |scaffolds| ==> HeaderIsPlain(scaffolds[i])
  {
    hide Trim, Code, FenceFor, Preamble, FrameworkLine, HeaderLine, HeaderText, SectionText;
    hide ShowSources, HeaderIsPlain, Blocks;
    SourcesAreShownIff(scaffolds);
    out := Preamble();
    for i := 0 to |scaffolds|
      invariant out == Preamble() + Sections(scaffolds[..i])
    {
      var s := scaffolds[i];
      assert scaffolds[..i + 1][..i] == scaffolds[..i];
      ghost var start := out;
      HeaderWritten(start, s);
      SectionWritten(start, s);
      out := out + HeaderLine(s) + "\n";
      if Trim(s.framework) != "" {
        out := out + (FrameworkLine(s) + "\n\n");
      } else {
        out := out + "\n";
      }
      assert out == start + HeaderText(s);
      var source := Code(s);
      var fence := PickFence(source);
      out := out + fence + "\n";
      ghost var beforeSource := out;
      out := out + source;
      if !(source != "" && source[|source| - 1] == '\n') {
        out := out + "\n";
      }
      assert out == beforeSource + WithFinalNewline(source);
      out := out + fence + "\n\n";
      assert out == start + SectionText(s);
      assert start + SectionText(s) == Preamble() + (Sections(scaffolds[..i]) + SectionText(s));
    }
    assert scaffolds[..|scaffolds|] == scaffolds;
  }

  // ----- The lines of a scaffold comment -----

  function ScaffoldBlock(code: string): seq<string> {
    BlockLines("", code, FenceFor(code) + "\n") + ["\n"]
  }

  lemma EndsLineConcat(a: string, b: string)
    requires EndsLine(a) && EndsLine(b)
    ensures EndsLine(a + b)
  {
  }

  lemma HeaderTextEnds(s: TestScaffold)
    ensures EndsLine(HeaderText(s))
  {
    hide Trim, FrameworkLine, HeaderLine;
  }

  lemma SectionTextEnds(s: TestScaffold)
    ensures EndsLine(SectionText(s))
  {
    hide HeaderText, FenceFor, WithFinalNewline, Code;
  }

  lemma TailLines(code: string)
    ensures RawLines(FenceFor(code) + "\n" + "\n") == [FenceFor(code) + "\n", "\n"]
  {
    hide FenceFor, RawLines;
    FenceLineAlone(code, "");
    assert FenceFor(code) + "" == FenceFor(code);
    RawLinesConcat(FenceFor(code) + "\n", "\n");
    RawLinesOfLine("");
    assert "" + "\n" == "\n";
  }

  lemma SectionLines(s: TestScaffold)
    ensures RawLines(SectionText(s)) == RawLines(HeaderText(s)) + ScaffoldBlock(Code(s))
  {
    hide HeaderText, FenceFor, WithFinalNewline, Code, RawLines;
    var code := Code(s);
    var tail := FenceFor(code) + "\n" + "\n";
    HeaderTextEnds(s);
    RawLinesConcat(HeaderText(s), FenceFor(code) + "" + "\n" + WithFinalNewline(code) + tail);
    BlockTextLines("", code, tail);
    TailLines(code);
  }

  lemma {:induction false} ScaffoldsTextEnds(scaffolds: seq<TestScaffold>)
    ensures EndsLine(ScaffoldsText(scaffolds))
  {
    hide SectionText, Preamble;
    if scaffolds == [] {
      PreambleIsPlain();
    } else {
      var n := |scaffolds| - 1;
      ScaffoldsTextEnds(scaffolds[..n]);
      SectionTextEnds(scaffolds[n]);
      EndsLineConcat(ScaffoldsText(scaffolds[..n]), SectionText(scaffolds[n]));
      assert ScaffoldsText(scaffolds) == ScaffoldsText(scaffolds[..n]) + SectionText(scaffolds[n]);
    }
  }

  lemma NoEolConcat(a: string, b: string)
    requires NoEol(a) && NoEol(b)
    ensures NoEol(a + b)
  {
  }

  lemma ExplanationIsOneLine()
    ensures NoEol(Explanation()) && StartsPlain(Explanation())
  {
    ExplanationStart();
    ExplanationMiddle();
    ExplanationEnd();
    hide NoEol;
    NoEolConcat("separate file, so these are copy-paste-", "ready rather than inline suggestions.");
    NoEolConcat("coverage. Tests usually live in a ",
                "separate file, so these are copy-paste-" + "ready rather than inline suggestions.");
    NoEolConcat("in this PR that look like they could use ",
                "coverage. Tests usually live in a "
                + ("separate file, so these are copy-paste-" + "ready rather than inline suggestions."));
    NoEolConcat("Below are scaffolded tests for items ",
                "in this PR that look like they could use "
                + ("coverage. Tests usually live in a "
                   + ("separate file, so these are copy-paste-" + "ready rather than inline suggestions.")));
  }

  lemma ExplanationStart()
    ensures NoEol("Below are scaffolded tests for items ")
  {
  }

  lemma ExplanationMiddle()
    ensures NoEol("in this PR that look like they could use ")
  {
  }

  lemma ExplanationEnd()
    ensures NoEol("coverage. Tests usually live in a ")
    ensures NoEol("separate file, so these are copy-paste-")
    ensures NoEol("ready rather than inline suggestions.")
  {
  }

  predicate StartsPlain(t: string) {
    t == "" || (t[0] != ' ' && t[0] != '`' && t[0] != '~')
  }

  /** A line opens no fence if it is blank or begins with another character. */
  lemma PlainLine(t: string)
    requires NoEol(t) && StartsPlain(t)
    ensures RawLines(t + "\n") == [t + "\n"] && Opening(t + "\n") == None
  {
    RawLinesOfLine(t);
    LeadingRunIs(t, ' ', 0);
  }

  lemma TwoPlainLines(t: string, u: string)
    requires NoEol(t) && StartsPlain(t)
    requires NoEol(u) && StartsPlain(u)
    ensures AllPlain(RawLines(t + "\n" + (u + "\n")))
    ensures EndsLine(t + "\n" + (u + "\n"))
  {
    hide RawLines, NoEol, Opening;
    PlainLine(t);
    PlainLine(u);
    RawLinesConcat(t + "\n", u + "\n");
  }

  lemma PlainConcat(a: string, b: string)
    requires EndsLine(a) && AllPlain(RawLines(a)) && AllPlain(RawLines(b))
    ensures AllPlain(RawLines(a + b))
  {
    hide RawLines, Opening;
    RawLinesConcat(a, b);
  }

  lemma PreambleIsPlain()
    ensures AllPlain(RawLines(Preamble())) && EndsLine(Preamble())
  {
    assert NoEol(Title()) && StartsPlain(Title());
    hide RawLines, AllPlain, NoEol, Explanation, Title, StartsPlain, EndsLine, Opening;
    ExplanationIsOneLine();
    EmptyLine();
    TwoPlainLines(Title(), "");
    TwoPlainLines(Explanation(), "");
    var a, b := Title() + "\n" + "\n", Explanation() + "\n" + "\n";
    assert a == Title() + "\n" + ("" + "\n") && b == Explanation() + "\n" + ("" + "\n");
    PlainConcat(a, b);
    EndsLineConcat(a, b);
  }

  lemma EmptyLine()
    ensures NoEol("") && StartsPlain("")
  {
  }

  // ----- Reading a scaffold comment back -----

  function ReadScaffolds(scaffolds: seq<TestScaffold>): Reader {
    Read(RawLines(ScaffoldsText(scaffolds)), START)
  }

  lemma ReadScaffoldsSnoc(scaffolds: seq<TestScaffold>)
    requires scaffolds != []
    ensures var n := |scaffolds| - 1;
            ReadScaffolds(scaffolds)
            == Read(ScaffoldBlock(Code(scaffolds[n])),
                    Read(RawLines(HeaderText(scaffolds[n])), ReadScaffolds(scaffolds[..n])))
  {
    hide SectionText, HeaderText, Preamble, RawLines, Read, ScaffoldBlock, Code;
    var n := |scaffolds| - 1;
    var before, s := ScaffoldsText(scaffolds[..n]), scaffolds[n];
    assert ScaffoldsText(scaffolds) == before + SectionText(s);
    ScaffoldsTextEnds(scaffolds[..n]);
    RawLinesConcat(before, SectionText(s));
    SectionLines(s);
    ReadConcat(RawLines(before), RawLines(HeaderText(s)) + ScaffoldBlock(Code(s)), START);
    ReadConcat(RawLines(HeaderText(s)), ScaffoldBlock(Code(s)), ReadScaffolds(scaffolds[..n]));
  }

  lemma ReadNoScaffolds()
    ensures ReadScaffolds([]) == START
  {
    hide Preamble, RawLines;
    PreambleIsPlain();
    assert ScaffoldsText([]) == Preamble();
    PlainLinesChangeNothing(RawLines(Preamble()), START);
  }

  /** The blocks that the comment is meant to show. */
  function Sources(scaffolds: seq<TestScaffold>): seq<Block> {
    seq(|scaffolds|, i requires 0 <= i < |scaffolds| => Block("", WithFinalNewline(Code(scaffolds[i]))))
  }

  predicate HeaderIsPlain(s: TestScaffold) {
    AllPlain(RawLines(HeaderText(s)))
  }

  lemma ScaffoldBlockReadsBack(code: string, r: Reader)
    requires r.open == None
    ensures Read(ScaffoldBlock(code), r) == Reader(r.done + [Block("", WithFinalNewline(code))], None, "")
  {
    hide Read, BlockLines, WithFinalNewline, FenceFor, IsFenceLine, Opening;
    FenceForIsFenceLine(code, "");
    BlockReadsBack("", code, FenceFor(code) + "\n", r);
    var after := Reader(r.done + [Block("", WithFinalNewline(code))], None, "");
    ReadConcat(BlockLines("", code, FenceFor(code) + "\n"), ["\n"], r);
    ReadOne("\n", after);
    EmptyLineIsBlank();
  }

  lemma {:induction false} PlainHeadersReadBack(scaffolds: seq<TestScaffold>)
    requires forall i :: 0 <= i < |scaffolds| ==> HeaderIsPlain(scaffolds[i])
    ensures ReadScaffolds(scaffolds) == Reader(Sources(scaffolds), None, "")
  {
    hide Read, RawLines, HeaderText, ScaffoldBlock, Code, WithFinalNewline, ScaffoldsText, AllPlain;
    if scaffolds == [] {
      ReadNoScaffolds();
    } else {
      var n := |scaffolds| - 1;
      PlainHeadersReadBack(scaffolds[..n]);
      ReadScaffoldsSnoc(scaffolds);
      assert HeaderIsPlain(scaffolds[n]);
      PlainLinesChangeNothing(RawLines(HeaderText(scaffolds[n])), ReadScaffolds(scaffolds[..n]));
      ScaffoldBlockReadsBack(Code(scaffolds[n]), ReadScaffolds(scaffolds[..n]));
      assert Sources(scaffolds) == Sources(scaffolds[..n]) + [Block("", WithFinalNewline(Code(scaffolds[n])))];
    }
  }

  // Once a header has opened a fence, the damage is never repaired: either there is a block
  // too many, or some block shows a fence line longer than any run in its scaffold.

  ghost predicate Spoilt(blocks: seq<Block>, scaffolds: seq<TestScaffold>) {
    || |blocks| > |scaffolds|
    || exists k: nat :: ShowsAFence(blocks, scaffolds, k)
  }

  ghost predicate ShowsAFence(blocks: seq<Block>, scaffolds: seq<TestScaffold>, k: nat) {
    k < |scaffolds| && k < |blocks| && HasRun(blocks[k].content, |FenceFor(Code(scaffolds[k]))|)
  }

  lemma RunOfPrefix(a: string, b: string, n: nat)
    requires a <= b && HasRun(a, n)
    ensures HasRun(b, n)
  {
    var i: nat :| RunAt(a, i, n);
    assert RunAt(b, i, n);
  }

  lemma RunsPersist(before: seq<Block>, after: seq<Block>, done: nat, k: nat, n: nat)
    requires Extends(before, after, done) && k < |before| && HasRun(before[k].content, n)
    ensures HasRun(after[k].content, n)
  {
    hide HasRun;
    if k < done {
      assert before[..done][k] == after[..done][k];
    } else {
      RunOfPrefix(before[k].content, after[k].content, n);
    }
  }

  lemma SpoiltIsWrong(scaffolds: seq<TestScaffold>)
    ensures !Spoilt(Sources(scaffolds), scaffolds)
  {
    hide HasRun, FenceFor, WithFinalNewline, Code;
    forall k: nat
      ensures !ShowsAFence(Sources(scaffolds), scaffolds, k)
    {
      if k < |scaffolds| {
        SourceHasNoFence(Code(scaffolds[k]));
      }
    }
  }

  /** A block read from inside a fence, or after one block too many, stays off. */
  lemma BlockAfterTooMany(code: string, r: Reader, n: nat)
    requires |Finish(r)| > n && (r.open.Some? ==> r.open.value.length >= 3)
    ensures var blocks := Finish(Read(ScaffoldBlock(code), r));
            |blocks| > n + 1 || (|blocks| > n && HasRun(blocks[n].content, |FenceFor(code)|))
  {
    hide Read, FenceFor, WithFinalNewline, RawLines, IsFenceLine, HasRun, Closes, Opening;
    var fence := FenceFor(code);
    var first, body := fence + "" + "\n", RawLines(WithFinalNewline(code));
    FenceForIsFenceLine(code, "");
    assert ScaffoldBlock(code) == [first] + (body + [fence + "\n", "\n"]);
    var r1 := Step(r, first);
    ReadConcat([first], body + [fence + "\n", "\n"], r);
    ReadOne(first, r);
    StepExtends(r, first);
    ReadExtends(body + [fence + "\n", "\n"], r1);
    if r.open == None {
      FenceLineOpens(first, |fence|, "");
    } else if Closes(first, r.open.value) {
      ReadConcat(body, [fence + "\n", "\n"], r1);
      ReadExtends(body, r1);
      ClosingLineOpens(code, Read(body, r1), n);
    } else {
      OpenFenceSwallows(first, body + [fence + "\n", "\n"], r, |fence|, "");
      FenceHasRun(code, r.content, "" + "\n");
      assert r.content + first == r.content + fence + ("" + "\n");
      RunOfPrefix(r.content + first, Finish(Read(ScaffoldBlock(code), r))[|r.done|].content, |fence|);
    }
  }

  lemma FenceHasRun(code: string, before: string, after: string)
    ensures HasRun(before + FenceFor(code) + after, |FenceFor(code)|)
  {
    assert RunAt(before + FenceFor(code) + after, |before|, |FenceFor(code)|);
  }

  /** Met outside a fence, the closing line of a block opens one. */
  lemma ClosingLineOpens(code: string, r: Reader, n: nat)
    requires |r.done| > n
    ensures |Finish(Read([FenceFor(code) + "\n", "\n"], r))| > n + 1
  {
    hide Read, FenceFor, IsFenceLine, Closes, Opening;
    var line := FenceFor(code) + "\n";
    FenceForIsFenceLine(code, "");
    FenceLineOpens(line, |FenceFor(code)|, "");
    assert [line, "\n"] == [line] + ["\n"];
    ReadConcat([line], ["\n"], r);
    ReadOne(line, r);
    StepExtends(r, line);
    ReadExtends(["\n"], Step(r, line));
  }

  lemma SpoiltStays(scaffolds: seq<TestScaffold>)
    requires scaffolds != []
    requires Spoilt(Finish(ReadScaffolds(scaffolds[..|scaffolds| - 1])), scaffolds[..|scaffolds| - 1])
    ensures Spoilt(Finish(ReadScaffolds(scaffolds)), scaffolds)
  {
    hide Read, HasRun, FenceFor, Code, RawLines, ScaffoldBlock, HeaderText, ReadScaffolds;
    var n := |scaffolds| - 1;
    var header, lines := RawLines(HeaderText(scaffolds[n])), ScaffoldBlock(Code(scaffolds[n]));
    var r := ReadScaffolds(scaffolds[..n]);
    ReadScaffoldsSnoc(scaffolds);
    if k: nat :| ShowsAFence(Finish(r), scaffolds[..n], k) {
      var length := |FenceFor(Code(scaffolds[k]))|;
      ReadExtends(header, r);
      RunsPersist(Finish(r), Finish(Read(header, r)), |r.done|, k, length);
      ReadExtends(lines, Read(header, r));
      RunsPersist(Finish(Read(header, r)), Finish(ReadScaffolds(scaffolds)), |Read(header, r).done|, k, length);
      assert ShowsAFence(Finish(ReadScaffolds(scaffolds)), scaffolds, k);
    } else {
      ReadExtends(header, r);
      TooManyIsSpoilt(scaffolds);
    }
  }

  /** One block too many before the last code block spoils the comment. */
  lemma TooManyIsSpoilt(scaffolds: seq<TestScaffold>)
    requires scaffolds != []
    requires var n := |scaffolds| - 1;
             |Finish(Read(RawLines(HeaderText(scaffolds[n])), ReadScaffolds(scaffolds[..n])))| > n
    ensures Spoilt(Finish(ReadScaffolds(scaffolds)), scaffolds)
  {
    hide Read, HasRun, FenceFor, Code, RawLines, ScaffoldBlock, HeaderText, ReadScaffolds;
    var n := |scaffolds| - 1;
    var r := Read(RawLines(HeaderText(scaffolds[n])), ReadScaffolds(scaffolds[..n]));
    ReadScaffoldsSnoc(scaffolds);
    AfterHeaderFenceIsLong(scaffolds[..n], scaffolds[n]);
    BlockAfterTooMany(Code(scaffolds[n]), r, n);
    if |Finish(ReadScaffolds(scaffolds))| <= |scaffolds| {
      assert ShowsAFence(Finish(ReadScaffolds(scaffolds)), scaffolds, n);
    }
  }

  lemma AfterHeaderFenceIsLong(before: seq<TestScaffold>, s: TestScaffold)
    ensures var r := Read(RawLines(HeaderText(s)), ReadScaffolds(before));
            r.open.Some? ==> r.open.value.length >= 3
  {
    hide Read, RawLines, HeaderText, ScaffoldsText;
    ReadConcat(RawLines(ScaffoldsText(before)), RawLines(HeaderText(s)), START);
    OpenFenceIsLong(RawLines(ScaffoldsText(before)) + RawLines(HeaderText(s)));
  }

  lemma {:induction false} OpeningHeaderSpoils(scaffolds: seq<TestScaffold>)
    requires exists i :: 0 <= i < |scaffolds| && !HeaderIsPlain(scaffolds[i])
    ensures Spoilt(Finish(ReadScaffolds(scaffolds)), scaffolds)
  {
    hide Read, RawLines, HeaderText, ReadScaffolds, Spoilt, AllPlain;
    var n := |scaffolds| - 1;
    if exists i :: 0 <= i < n && !HeaderIsPlain(scaffolds[..n][i]) {
      OpeningHeaderSpoils(scaffolds[..n]);
      SpoiltStays(scaffolds);
    } else {
      assert !HeaderIsPlain(scaffolds[n]);
      PlainHeadersReadBack(scaffolds[..n]);
      OpeningLineCounts(RawLines(HeaderText(scaffolds[n])), ReadScaffolds(scaffolds[..n]));
      TooManyIsSpoilt(scaffolds);
    }
  }

  /** The comment shows exactly the scaffolds, in order, if and only if no header line opens a
      fence of its own. */
  lemma ScaffoldsReadBackIff(scaffolds: seq<TestScaffold>)
    ensures Blocks(ScaffoldsText(scaffolds)) == Sources(scaffolds)
            <==> forall i :: 0 <= i < |scaffolds| ==> HeaderIsPlain(scaffolds[i])
  {
    hide Read, RawLines, ScaffoldsText, HeaderIsPlain, Spoilt, Sources;
    if forall i :: 0 <= i < |scaffolds| ==> HeaderIsPlain(scaffolds[i]) {
      PlainHeadersReadBack(scaffolds);
    } else {
      OpeningHeaderSpoils(scaffolds);
      SpoiltIsWrong(scaffolds);
    }
  }

  /** A block that shows a scaffold's source. */
  ghost predicate ShowsSource(block: Block, s: TestScaffold) {
    && block.info == ""
    && ShowsCut(block.content, s.source, 4096, "[scaffold truncated \U{2014} not directly usable]")
  }

  /** One block a scaffold, in order. */
  ghost predicate ShowSources(blocks: seq<Block>, scaffolds: seq<TestScaffold>) {
    |blocks| == |scaffolds| && forall i :: 0 <= i < |blocks| ==> ShowsSource(blocks[i], scaffolds[i])
  }

  lemma ShowsSourceIff(block: Block, s: TestScaffold)
    ensures ShowsSource(block, s) <==> block == Block("", WithFinalNewline(Code(s)))
  {
    hide ShowsCut, WithFinalNewline, Utf8.Truncated;
    var marker := "[scaffold truncated \U{2014} not directly usable]";
    ShownIsCut(s.source, 4096, marker);
    if ShowsCut(block.content, s.source, 4096, marker) {
      CutIsShown(block.content, s.source, 4096, marker);
    }
  }

  lemma ShowSourcesIff(blocks: seq<Block>, scaffolds: seq<TestScaffold>)
    ensures ShowSources(blocks, scaffolds) <==> blocks == Sources(scaffolds)
  {
    hide ShowsSource, WithFinalNewline, Code;
    forall i | 0 <= i < |blocks| && i < |scaffolds|
      ensures ShowsSource(blocks[i], scaffolds[i]) <==> blocks[i] == Block("", WithFinalNewline(Code(scaffolds[i])))
    {
      ShowsSourceIff(blocks[i], scaffolds[i]);
    }
  }

  /** The blocks of the comment show the source of each scaffold, in order and nothing else, if and
      only if no header line opens a fence of its own. */
  lemma SourcesAreShownIff(scaffolds: seq<TestScaffold>)
    ensures ShowSources(Blocks(ScaffoldsText(scaffolds)), scaffolds)
            <==> forall i :: 0 <= i < |scaffolds| ==> HeaderIsPlain(scaffolds[i])
  {
    hide ScaffoldsText, HeaderIsPlain, Sources, ShowSources, Blocks;
    ScaffoldsReadBackIff(scaffolds);
    ShowSourcesIff(Blocks(ScaffoldsText(scaffolds)), scaffolds);
  }

  // ----- What a header says -----

  /** The texts between backticks: between the first and the second, the third and the fourth, ... */
  function Quoted(s: string): seq<string> {
    var i := FindChar(s, '`');
    if i == |s| then []
    else
      var rest := s[i + 1..];
      var j := FindChar(rest, '`');
      if j == |rest| then [] else [rest[..j]] + Quoted(rest[j + 1..])
  }

  lemma QuotedFirst(before: string, quoted: string, after: string)
    requires '`' !in before && '`' !in quoted
    ensures Quoted(before + "`" + quoted + "`" + after) == [quoted] + Quoted(after)
  {
    hide FindChar;
    var s := before + "`" + quoted + "`" + after;
    FindCharAt(s, '`', |before|);
    var rest := s[|before| + 1..];
    assert rest == quoted + "`" + after;
    FindCharAt(rest, '`', |quoted|);
    assert rest[..|quoted|] == quoted && rest[|quoted| + 1..] == after;
  }

  lemma QuotedNothing(s: string)
    requires '`' !in s
    ensures Quoted(s) == []
  {
  }

  /** What follows the item in a header. */
  function HeaderEnd(framework: string): string {
    "\n" + if framework == "" then "\n" else "Framework: `" + framework + "`" + "\n" + "\n"
  }

  lemma HeaderEndQuotes(before: string, framework: string)
    requires '`' !in before && '`' !in framework
    ensures Quoted(before + HeaderEnd(framework)) == if framework == "" then [] else [framework]
  {
    hide Quoted;
    if framework == "" {
      QuotedNothing(before + HeaderEnd(framework));
    } else {
      var start := before + "\n" + "Framework: ";
      assert '`' !in "\n" + "Framework: ";
      assert before + HeaderEnd(framework) == start + "`" + framework + "`" + ("\n" + "\n");
      QuotedFirst(start, framework, "\n" + "\n");
      QuotedNothing("\n" + "\n");
    }
  }

  lemma HeaderParts(s: TestScaffold)
    ensures var end := HeaderEnd(Trim(s.framework));
            HeaderText(s)
            == if s.itemPath == "" then "### " + "`" + s.itemName + "`" + ("" + end)
               else "### " + "`" + s.itemName + "`" + (" (in " + "`" + s.itemPath + "`" + (")" + end))
  {
    hide Trim;
    assert "### `" == "### " + "`" && "` (in `" == "`" + " (in " + "`" && "`)" == "`" + ")";
  }

  /** A header quotes the item's name, its path if it has one, and the framework if there is one. */
  lemma HeaderQuotes(s: TestScaffold)
    requires '`' !in s.itemName && '`' !in s.itemPath && '`' !in Trim(s.framework)
    ensures Quoted(HeaderText(s))
            == [s.itemName] + (if s.itemPath == "" then [] else [s.itemPath])
               + (if Trim(s.framework) == "" then [] else [Trim(s.framework)])
  {
    hide Trim, Quoted, HeaderText, HeaderEnd;
    var end := HeaderEnd(Trim(s.framework));
    HeaderParts(s);
    if s.itemPath == "" {
      QuotedFirst("### ", s.itemName, "" + end);
      HeaderEndQuotes("", Trim(s.framework));
    } else {
      QuotedFirst("### ", s.itemName, " (in " + "`" + s.itemPath + "`" + (")" + end));
      QuotedFirst(" (in ", s.itemPath, ")" + end);
      HeaderEndQuotes(")", Trim(s.framework));
    }
  }

  /** Header fields without line ends are enough. */
  lemma OneLineFieldsArePlain(s: TestScaffold)
    requires NoEol(s.itemName) && NoEol(s.itemPath) && NoEol(Trim(s.framework))
    ensures HeaderIsPlain(s)
  {
    hide RawLines, NoEol, HeaderLine, FrameworkLine, Trim, Opening, HeaderText, StartsPlain;
    FieldsStayOnOneLine(s);
    EmptyLine();
    HeaderShape(s);
    if Trim(s.framework) == "" {
      TwoPlainLines(HeaderLine(s), "");
    } else {
      TwoPlainLines(HeaderLine(s), FrameworkLine(s));
      EmptyLineIsBlank();
      assert AllPlain(RawLines("\n"));
      PlainConcat(HeaderLine(s) + "\n" + (FrameworkLine(s) + "\n"), "\n");
    }
  }

  lemma HeaderShape(s: TestScaffold)
    ensures HeaderText(s) == if Trim(s.framework) == "" then HeaderLine(s) + "\n" + ("" + "\n")
                             else HeaderLine(s) + "\n" + (FrameworkLine(s) + "\n") + "\n"
  {
    hide HeaderLine, FrameworkLine, Trim;
    assert "" + "\n" == "\n";
  }

  lemma FieldsStayOnOneLine(s: TestScaffold)
    requires NoEol(s.itemName) && NoEol(s.itemPath) && NoEol(Trim(s.framework))
    ensures NoEol(HeaderLine(s)) && StartsPlain(HeaderLine(s))
    ensures NoEol(FrameworkLine(s)) && StartsPlain(FrameworkLine(s))
  {
    HeaderLiterals();
    hide NoEol, Trim;
    var rest := if s.itemPath == "" then "`" else "` (in `" + s.itemPath + "`)";
    if s.itemPath != "" {
      NoEolConcat("` (in `", s.itemPath);
      NoEolConcat("` (in `" + s.itemPath, "`)");
    }
    NoEolConcat(s.itemName, rest);
    NoEolConcat("### `", s.itemName + rest);
    NoEolConcat("Framework: `", Trim(s.framework));
    NoEolConcat("Framework: `" + Trim(s.framework), "`");
  }

  lemma HeaderLiterals()
    ensures NoEol("### `") && NoEol("`") && NoEol("` (in `") && NoEol("`)") && NoEol("Framework: `")
  {
  }

  lemma NameOnlyHeader(name: string, source: string)
    ensures HeaderText(TestScaffold(name, "", "", source)) == "### `" + (name + "`") + "\n" + "\n"
  {
    assert Trim("") == "";
    hide Trim;
  }

  lemma Regroup(p: string, a: string, b: string, q: string)
    ensures p + (a + "\n" + b + q) + "\n" + "\n" == p + a + "\n" + (b + q + "\n" + "\n")
  {
    assert p + (a + "\n" + b + q) == p + a + "\n" + (b + q);
  }

  lemma NameLineOpensAFence(a: string, b: string, source: string)
    requires NoEol(b) && Opening(b + "`" + "\n").Some?
    ensures !HeaderIsPlain(TestScaffold(a + "\n" + b, "", "", source))
  {
    var first, line := "### `" + a + "\n", b + "`";
    assert NoEol(line);
    hide RawLines, Opening, HeaderText, LeadingRun, NoEol;
    NameOnlyHeader(a + "\n" + b, source);
    Regroup("### `", a, b, "`");
    RawLinesConcat(first, line + "\n" + "\n");
    RawLinesConcat(line + "\n", "\n");
    RawLinesOfLine(line);
    var lines := RawLines(HeaderText(TestScaffold(a + "\n" + b, "", "", source)));
    assert lines == RawLines(first) + ([line + "\n"] + RawLines("\n"));
    assert lines[|RawLines(first)|] == line + "\n";
  }

  /** A name with a line end in it, which nothing in the source excludes, hides the scaffold. */
  lemma TwoLineNameHidesTheSource(source: string)
    ensures var scaffolds := [TestScaffold("x" + "\n" + "~~~", "", "", source)];
            Blocks(ScaffoldsText(scaffolds)) != Sources(scaffolds)
  {
    TildeLineOpens();
    hide RawLines, Opening, Code, Sources, ScaffoldsText, HeaderText, HeaderIsPlain, NoEol;
    NameLineOpensAFence("x", "~~~", source);
    var scaffolds := [TestScaffold("x" + "\n" + "~~~", "", "", source)];
    ScaffoldsReadBackIff(scaffolds);
    assert !HeaderIsPlain(scaffolds[0]);
  }

  lemma TildeLineOpens()
    ensures NoEol("~~~") && Opening("~~~" + "`" + "\n").Some?
  {
    var line := "~~~" + "`";
    RawLinesOfLine(line);
    LeadingRunIs(line, ' ', 0);
    LeadingRunIs(line, '~', 3);
    assert line[0..] == line;
  }
}
