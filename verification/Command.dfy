/** The parser for bot mentions in comments, crates/ar-chat/src/command.rs, and the
poller's cheap pre-filter from crates/ar-gateway/src/poller.rs. */
module Command {
  import opened Text

  datatype ChatCommand =
    | Remember(text: string)
    | Forget(id: nat)
    | ReReview
    | ReviewCorrection(correction: string)
    | Autofix
    | Docstrings
    | TestScaffolds
    | Help
    | Freeform(question: string)
    | NotMentioned

  predicate IsSeparator(c: char) {
    c in ":,!?."
  }

  predicate IsWordBreak(c: char) {
    IsWhitespace(c) || IsSeparator(c)
  }

  function StripMention(line: string, mention: string): Option<string> {
    if |mention| <= |line| && EqIgnoreAsciiCase(line[..|mention|], mention)
    then Some(line[|mention|..]) else None
  }

  /** The configured mention, or else the compatibility alias. */
  function AfterMention(line: string, mention: string, alias: Option<string>): Option<string> {
    match StripMention(line, mention)
    case Some(after) => Some(after)
    case None => if alias.Some? then StripMention(line, alias.value) else None
  }

  function Mention(botName: string): string {
    "@" + botName
  }

  function Alias(botName: string): Option<string> {
    if botName == "auto-review" then Some("@auto_review") else None
  }

  function AfterFirstWord(s: string): string {
    var n := |FirstWord(s)|;
    if n == |s| then "" else s[n + 1..]
  }

  function Classify(rest: string): ChatCommand {
    if rest == "" then Help
    else
      var head := ToAsciiLower(FirstWord(rest));
      var tail := Trim(AfterFirstWord(rest));
      if head == "remember" then
        if tail == "" then Help else Remember(tail)
      else if head == "forget" then
        match ParseU64(tail)
        case Some(id) => Forget(id)
        case None => Help
      else ClassifyBareWord(head, rest)
  }

  function ClassifyBareWord(head: string, rest: string): ChatCommand {
    if head in {"re-review", "rereview", "review-again", "review_again"} then ReReview
    else if head in {"autofix", "auto-fix", "fix"} then Autofix
    else if head in {"docstring", "docstrings", "docs"} then Docstrings
    else if head in {"tests", "test", "unit-tests", "scaffold-tests"} then TestScaffolds
    else if head in {"help", "?", "--help", "-h"} then Help
    else Freeform(rest)
  }

  /** `trim_start_matches` of whitespace and separators. */
  function TrimWordBreaks(s: string): (r: string)
    ensures |r| <= |s|
    ensures r != "" ==> !IsWordBreak(r[0])
    ensures r != s ==> IsWordBreak(s[0])
  {
    if s != "" && IsWordBreak(s[0]) then TrimWordBreaks(s[1..]) else s
  }

  lemma {:induction false} TrimWordBreaksIsSuffix(s: string)
    ensures TrimWordBreaks(s) == s[|s| - |TrimWordBreaks(s)|..]
  {
    hide IsWordBreak;
    if TrimWordBreaks(s) != s {
      TrimWordBreaksIsSuffix(s[1..]);
    }
  }

  /** The loop of `parse_chat_command`: the first line that mentions the bot decides. */
  function FirstCommand(lines: seq<string>, mention: string, alias: Option<string>): ChatCommand {
    if lines == [] then NotMentioned
    else
      match AfterMention(Trim(lines[0]), mention, alias)
      case None => FirstCommand(lines[1..], mention, alias)
      case Some(after) =>
        if after != "" && !IsWordBreak(after[0]) then FirstCommand(lines[1..], mention, alias)
        else Classify(TrimEnd(TrimWordBreaks(after)))
  }

  /** The user's own lines under a quoted finding: neither blank nor quoted. */
  function Prose(lines: seq<string>): seq<string> {
    if lines == [] then []
    else
      var trimmed := Trim(lines[0]);
      (if trimmed == "" || trimmed[0] == '>' then [] else [trimmed]) + Prose(lines[1..])
  }

  function Join(lines: seq<string>): string {
    if lines == [] then "" else if |lines| == 1 then lines[0] else lines[0] + "\n" + Join(lines[1..])
  }

  function ParseReviewCorrection(body: string, mention: string, alias: Option<string>): Option<string> {
    var lines := Lines(body);
    if lines == [] then None
    else
      match AfterMention(Trim(lines[0]), mention, alias)
      case None => None
      case Some(after) =>
        var correction := Join(Prose(lines[1..]));
        if "wrote in " <= TrimStart(after) && correction != "" then Some(correction) else None
  }

  function ParseChatCommand(body: string, botName: string): ChatCommand {
    var mention, alias := Mention(botName), Alias(botName);
    match ParseReviewCorrection(body, mention, alias)
    case Some(correction) => ReviewCorrection(correction)
    case None => FirstCommand(Lines(body), mention, alias)
  }

  // ----- The poller's pre-filter -----

  /** One of `windows(needle.len())` equals the needle up to ASCII case. */
  predicate MatchesAt(body: string, needle: string, i: nat) {
    i + |needle| <= |body| && EqIgnoreAsciiCase(body[i..i + |needle|], needle)
  }

  predicate ContainsIgnoreAsciiCase(body: string, needle: string) {
    exists i: nat :: i <= |body| && MatchesAt(body, needle, i)
  }

  predicate PreFilter(body: string, botName: string) {
    || ContainsIgnoreAsciiCase(body, Mention(botName))
    || (botName == "auto-review" && ContainsIgnoreAsciiCase(body, "@auto_review"))
  }

  lemma MentionInInfix(line: string, mention: string, body: string)
    requires StripMention(line, mention).Some? && IsInfix(line, body)
    ensures ContainsIgnoreAsciiCase(body, mention)
  {
    var i: nat :| OccursAt(line, body, i);
    assert body[i..i + |mention|] == body[i..i + |line|][..|mention|] == line[..|mention|];
    assert MatchesAt(body, mention, i);
  }

  lemma MentionOnLinePassesPreFilter(body: string, botName: string, k: nat)
    requires k < |Lines(body)|
    requires AfterMention(Trim(Lines(body)[k]), Mention(botName), Alias(botName)).Some?
    ensures PreFilter(body, botName)
  {
    var line := Lines(body)[k];
    TrimIsInfix(line);
    LineIsInfix(body, k);
    InfixTransitive(Trim(line), line, body);
    if StripMention(Trim(line), Mention(botName)).Some? {
      MentionInInfix(Trim(line), Mention(botName), body);
    } else {
      MentionInInfix(Trim(line), "@auto_review", body);
    }
  }

  /** A command comes from some line that mentions the bot. */
  lemma {:induction false} CommandHasMentionLine(lines: seq<string>, mention: string, alias: Option<string>)
    returns (k: nat)
    requires FirstCommand(lines, mention, alias) != NotMentioned
    ensures k < |lines| && AfterMention(Trim(lines[k]), mention, alias).Some?
  {
    hide Trim, AfterMention, Classify;
    if AfterMention(Trim(lines[0]), mention, alias).Some? {
      k := 0;
    } else {
      k := CommandHasMentionLine(lines[1..], mention, alias);
      k := k + 1;
    }
  }

  /** The pre-filter never loses a command, whatever the comment and the bot's name. */
  lemma PreFilterLosesNoCommand(body: string, botName: string)
    requires ParseChatCommand(body, botName) != NotMentioned
    ensures PreFilter(body, botName)
  {
    var mention, alias := Mention(botName), Alias(botName);
    if ParseReviewCorrection(body, mention, alias).Some? {
      MentionOnLinePassesPreFilter(body, botName, 0);
    } else {
      var k := CommandHasMentionLine(Lines(body), mention, alias);
      MentionOnLinePassesPreFilter(body, botName, k);
    }
  }

  /** `written` is the bot's mention, or its alias, in any case. */
  predicate IsMention(written: string, botName: string): (r: bool)
    ensures r ==> written != ""
  {
    AfterMention(written, Mention(botName), Alias(botName)) == Some("")
  }

  lemma MentionIsStripped(written: string, rest: string, botName: string)
    requires IsMention(written, botName)
    ensures AfterMention(written + rest, Mention(botName), Alias(botName)) == Some(rest)
    ensures written != "" && written[0] == '@' && PreFilter(written + rest, botName)
  {
    hide IsWhitespace;
    var line := written + rest;
    assert line[..|written|] == written && line[|written|..] == rest;
    assert written[..|written|] == written;
    assert AsciiLower(written[0]) == '@';
    if EqIgnoreAsciiCase(written, Mention(botName)) {
      assert MatchesAt(line, Mention(botName), 0);
    } else {
      assert MatchesAt(line, "@auto_review", 0);
    }
  }

  lemma {:induction false} TrimEndAfter(before: string, rest: string)
    requires before != "" && !IsWhitespace(before[|before| - 1])
    ensures TrimEnd(before + rest) == before + TrimEnd(rest)
  {
    var s := before + rest;
    if rest == "" {
      assert s == before;
    } else if IsWhitespace(rest[|rest| - 1]) {
      assert s[..|s| - 1] == before + rest[..|rest| - 1];
      TrimEndAfter(before, rest[..|rest| - 1]);
    }
  }

  lemma {:induction false} TrimEndOfBlank(rest: string)
    requires rest != "" && TrimEnd(rest) == ""
    ensures IsWhitespace(rest[0])
  {
    if |rest| > 1 {
      TrimEndOfBlank(rest[..|rest| - 1]);
    }
  }

  /** Every command is something else than NotMentioned. */
  lemma ClassifiedIsMentioned(rest: string)
    ensures Classify(rest) != NotMentioned
  {
  }

  lemma OneLineParse(line: string, botName: string)
    requires line != "" && '\n' !in line
    ensures ParseChatCommand(line, botName) == FirstCommand([line], Mention(botName), Alias(botName))
  {
    hide AfterMention, Trim, Classify, IsWhitespace;
    LinesOfOneLine(line);
    hide Lines;
    assert [line][1..] == [];
  }

  /** On one line that begins with the mention, the pre-filter always says yes, and the parser
      if and only if the mention ends at a word break: it alone tells the two apart there. */
  lemma MentionAtStartIff(written: string, rest: string, botName: string)
    requires IsMention(written, botName) && !IsWhitespace(written[|written| - 1])
    requires '\n' !in written && '\n' !in rest
    ensures PreFilter(written + rest, botName)
    ensures ParseChatCommand(written + rest, botName) != NotMentioned
            <==> rest == "" || IsWhitespace(rest[0]) || rest[0] in [':', ',', '!', '?', '.']
  {
    AtIsPlain();
    if rest != "" {
      WordBreakIff(rest[0]);
    }
    hide *;
    var line, after := written + rest, TrimEnd(rest);
    MentionIsStripped(written, rest, botName);
    MentionIsStripped(written, after, botName);
    OneLineParse(line, botName);
    StartTrimmed(written, rest);
    MentionDecides(line, after, botName);
    BlankOrWord(rest);
  }

  lemma WordBreakIff(c: char)
    ensures IsWordBreak(c) <==> IsWhitespace(c) || c in [':', ',', '!', '?', '.']
  {
  }

  lemma AtIsPlain()
    ensures !IsWhitespace('@')
  {
  }

  /** A line whose trimmed form is the mention and `after`. */
  lemma MentionDecides(line: string, after: string, botName: string)
    requires AfterMention(Trim(line), Mention(botName), Alias(botName)) == Some(after)
    ensures FirstCommand([line], Mention(botName), Alias(botName)) != NotMentioned
            <==> after == "" || IsWordBreak(after[0])
  {
    hide Trim, AfterMention, Mention, Alias, IsWordBreak, Classify, TrimEnd, TrimWordBreaks;
    ClassifiedIsMentioned(TrimEnd(TrimWordBreaks(after)));
    assert [line][1..] == [];
  }

  /** Trimming the end does not change whether a text begins with a word break. */
  lemma BlankOrWord(rest: string)
    ensures var after := TrimEnd(rest);
            (after == "" || IsWordBreak(after[0])) <==> (rest == "" || IsWordBreak(rest[0]))
  {
    assert forall c | IsWhitespace(c) :: IsWordBreak(c);
    hide IsWordBreak, IsWhitespace, TrimEnd;
    if rest != "" && TrimEnd(rest) == "" {
      TrimEndOfBlank(rest);
    } else if rest == "" {
      TrimEndOfNothing();
    }
  }

  lemma TrimEndOfNothing()
    ensures TrimEnd("") == ""
  {
  }

  lemma StartTrimmed(written: string, rest: string)
    requires written != "" && !IsWhitespace(written[0]) && !IsWhitespace(written[|written| - 1])
    ensures Trim(written + rest) == written + TrimEnd(rest)
  {
    hide IsWhitespace, TrimEnd;
    StartsTrimmed(written + rest);
    TrimEndAfter(written, rest);
  }

  lemma StartsTrimmed(s: string)
    requires s != "" && !IsWhitespace(s[0])
    ensures TrimStart(s) == s
  {
  }

  /** The converse fails for every bot: a longer name passes the pre-filter, and it is
      the parser's word-break check that tells it apart. */
  lemma LongerNamePassesPreFilterOnly(botName: string, c: char)
    requires '\n' !in botName && !IsWordBreak(c)
    ensures PreFilter(Mention(botName) + [c], botName)
    ensures ParseChatCommand(Mention(botName) + [c], botName) == NotMentioned
  {
    var mention := Mention(botName);
    var body := mention + [c];
    assert body[..|mention|] == mention && body[|mention|..] == [c];
    assert MatchesAt(body, mention, 0);
    LinesOfOneLine(body);
    TrimOfTrimmed(body);
    assert StripMention(body, mention) == Some([c]);
    hide Trim, Lines, Classify, StripMention;
    assert FirstCommand([body], mention, Alias(botName)) == FirstCommand([], mention, Alias(botName)) by {
      assert [body][1..] == [];
    }
  }

  // ----- Which command a comment is -----

  /** `word` is one of the keywords, in any case. */
  ghost predicate IsOneOf(word: string, keywords: seq<string>) {
    exists k :: k in keywords && EqIgnoreAsciiCase(word, k)
  }

  predicate InLowerCase(s: string) {
    forall i :: 0 <= i < |s| ==> AsciiLower(s[i]) == s[i]
  }

  lemma EqualToLowerCase(word: string, keyword: string)
    requires InLowerCase(keyword)
    ensures EqIgnoreAsciiCase(word, keyword) <==> ToAsciiLower(word) == keyword
  {
    hide AsciiLower;
    if ToAsciiLower(word) == keyword {
      forall i | 0 <= i < |word|
        ensures AsciiLower(word[i]) == AsciiLower(keyword[i])
      {
        assert ToAsciiLower(word)[i] == keyword[i];
      }
    }
  }

  lemma OneOfLowerCase(word: string, keywords: seq<string>)
    requires forall k :: k in keywords ==> InLowerCase(k)
    ensures IsOneOf(word, keywords) <==> ToAsciiLower(word) in keywords
  {
    hide InLowerCase, EqIgnoreAsciiCase, ToAsciiLower;
    forall k | k in keywords
      ensures EqIgnoreAsciiCase(word, k) <==> ToAsciiLower(word) == k
    {
      EqualToLowerCase(word, k);
    }
  }

  lemma ReReviewWords(word: string)
    ensures IsOneOf(word, ["re-review", "rereview", "review-again", "review_again"])
            <==> ToAsciiLower(word) in ["re-review", "rereview", "review-again", "review_again"]
  {
    assert forall k | k in ["re-review", "rereview", "review-again", "review_again"] :: InLowerCase(k);
    hide InLowerCase, IsOneOf, ToAsciiLower;
    OneOfLowerCase(word, ["re-review", "rereview", "review-again", "review_again"]);
  }

  lemma AutofixWords(word: string)
    ensures IsOneOf(word, ["autofix", "auto-fix", "fix"])
            <==> ToAsciiLower(word) in ["autofix", "auto-fix", "fix"]
  {
    assert forall k | k in ["autofix", "auto-fix", "fix"] :: InLowerCase(k);
    hide InLowerCase, IsOneOf, ToAsciiLower;
    OneOfLowerCase(word, ["autofix", "auto-fix", "fix"]);
  }

  lemma DocstringWords(word: string)
    ensures IsOneOf(word, ["docstring", "docstrings", "docs"])
            <==> ToAsciiLower(word) in ["docstring", "docstrings", "docs"]
  {
    assert forall k | k in ["docstring", "docstrings", "docs"] :: InLowerCase(k);
    hide InLowerCase, IsOneOf, ToAsciiLower;
    OneOfLowerCase(word, ["docstring", "docstrings", "docs"]);
  }

  lemma TestWords(word: string)
    ensures IsOneOf(word, ["tests", "test", "unit-tests", "scaffold-tests"])
            <==> ToAsciiLower(word) in ["tests", "test", "unit-tests", "scaffold-tests"]
  {
    assert forall k | k in ["tests", "test", "unit-tests", "scaffold-tests"] :: InLowerCase(k);
    hide InLowerCase, IsOneOf, ToAsciiLower;
    OneOfLowerCase(word, ["tests", "test", "unit-tests", "scaffold-tests"]);
  }

  lemma HelpWords(word: string)
    ensures IsOneOf(word, ["help", "?", "--help", "-h"])
            <==> ToAsciiLower(word) in ["help", "?", "--help", "-h"]
  {
    assert forall k | k in ["help", "?", "--help", "-h"] :: InLowerCase(k);
    hide InLowerCase, IsOneOf, ToAsciiLower;
    OneOfLowerCase(word, ["help", "?", "--help", "-h"]);
  }

  lemma ArgumentWords(word: string)
    ensures EqIgnoreAsciiCase(word, "remember") <==> ToAsciiLower(word) == "remember"
    ensures EqIgnoreAsciiCase(word, "forget") <==> ToAsciiLower(word) == "forget"
  {
    assert InLowerCase("remember") && InLowerCase("forget");
    hide InLowerCase, EqIgnoreAsciiCase, ToAsciiLower;
    EqualToLowerCase(word, "remember");
    EqualToLowerCase(word, "forget");
  }

  // Each keyword belongs to one command.

  lemma ReReviewIff(head: string, rest: string)
    ensures ClassifyBareWord(head, rest) == ReReview
            <==> head in ["re-review", "rereview", "review-again", "review_again"]
  {
  }

  lemma AutofixIff(head: string, rest: string)
    ensures ClassifyBareWord(head, rest) == Autofix <==> head in ["autofix", "auto-fix", "fix"]
  {
  }

  lemma DocstringsIff(head: string, rest: string)
    ensures ClassifyBareWord(head, rest) == Docstrings <==> head in ["docstring", "docstrings", "docs"]
  {
  }

  lemma TestScaffoldsIff(head: string, rest: string)
    ensures ClassifyBareWord(head, rest) == TestScaffolds <==> head in ["tests", "test", "unit-tests", "scaffold-tests"]
  {
  }

  lemma HelpIff(head: string, rest: string)
    ensures ClassifyBareWord(head, rest) == Help <==> head in ["help", "?", "--help", "-h"]
  {
  }

  lemma BareWordIsBare(head: string, rest: string)
    ensures var c := ClassifyBareWord(head, rest);
            c.ReReview? || c.Autofix? || c.Docstrings? || c.TestScaffolds? || c.Help? || c == Freeform(rest)
  {
  }

  lemma ArgumentWordsAreNoKeywords(head: string)
    requires head == "remember" || head == "forget"
    ensures head !in ["re-review", "rereview", "review-again", "review_again"]
    ensures head !in ["autofix", "auto-fix", "fix"]
    ensures head !in ["docstring", "docstrings", "docs"]
    ensures head !in ["tests", "test", "unit-tests", "scaffold-tests"]
    ensures head !in ["help", "?", "--help", "-h"]
  {
  }

  /** A command by its first word. */
  lemma ClassifiedByWord(word: string, arg: string, rest: string)
    requires rest != "" && FirstWord(rest) == word && Trim(AfterFirstWord(rest)) == arg
    ensures var cmd := Classify(rest);
            && (cmd == ReReview <==> IsOneOf(word, ["re-review", "rereview", "review-again", "review_again"]))
            && (cmd == Autofix <==> IsOneOf(word, ["autofix", "auto-fix", "fix"]))
            && (cmd == Docstrings <==> IsOneOf(word, ["docstring", "docstrings", "docs"]))
            && (cmd == TestScaffolds <==> IsOneOf(word, ["tests", "test", "unit-tests", "scaffold-tests"]))
            && (cmd == Help <==>
                || IsOneOf(word, ["help", "?", "--help", "-h"])
                || (EqIgnoreAsciiCase(word, "remember") && arg == "")
                || (EqIgnoreAsciiCase(word, "forget") && ParseU64(arg) == None))
            && (EqIgnoreAsciiCase(word, "remember") && arg != "" ==> cmd == Remember(arg))
            && (EqIgnoreAsciiCase(word, "forget") && ParseU64(arg).Some? ==> cmd == Forget(ParseU64(arg).value))
            && (cmd.Remember? ==> EqIgnoreAsciiCase(word, "remember"))
            && (cmd.Forget? ==> EqIgnoreAsciiCase(word, "forget"))
            && (cmd.Freeform? ==> cmd == Freeform(rest))
            && cmd != NotMentioned && !cmd.ReviewCorrection?
  {
    hide ClassifyBareWord, FirstWord, AfterFirstWord, Trim, ParseU64, IsOneOf, EqIgnoreAsciiCase, ToAsciiLower;
    var head := ToAsciiLower(word);
    ReReviewWords(word);
    AutofixWords(word);
    DocstringWords(word);
    TestWords(word);
    HelpWords(word);
    ArgumentWords(word);
    ReReviewIff(head, rest);
    AutofixIff(head, rest);
    DocstringsIff(head, rest);
    TestScaffoldsIff(head, rest);
    HelpIff(head, rest);
    BareWordIsBare(head, rest);
    if head == "remember" || head == "forget" {
      ArgumentWordsAreNoKeywords(head);
    }
  }

  predicate AllWordBreaks(s: string) {
    forall i :: 0 <= i < |s| ==> IsWordBreak(s[i])
  }

  lemma {:induction false} TrimWordBreaksOf(gap: string, rest: string)
    requires AllWordBreaks(gap) && (rest != "" ==> !IsWordBreak(rest[0]))
    ensures TrimWordBreaks(gap + rest) == rest
  {
    hide IsWordBreak;
    if gap == "" {
      assert gap + rest == rest;
    } else {
      assert (gap + rest)[1..] == gap[1..] + rest;
      TrimWordBreaksOf(gap[1..], rest);
    }
  }

  /** What follows the mention decides: a one-line comment of mention, gap and rest is the command
      that the rest is. */
  lemma RestDecides(written: string, gap: string, rest: string, botName: string)
    requires IsMention(written, botName) && !IsWhitespace(written[|written| - 1])
    requires '\n' !in written && '\n' !in gap && '\n' !in rest
    requires AllWordBreaks(gap)
    requires rest != "" ==> gap != "" && !IsWordBreak(rest[0]) && !IsWhitespace(rest[|rest| - 1])
    requires Trim(written + gap + rest) == written + gap + rest
    ensures ParseChatCommand(written + gap + rest, botName) == Classify(rest)
  {
    hide IsWhitespace, IsWordBreak, Classify, Trim, TrimEnd, TrimWordBreaks, AfterMention, ParseChatCommand, IsMention;
    var line, after := written + gap + rest, gap + rest;
    assert line == written + after;
    MentionIsStripped(written, after, botName);
    OneLineParse(line, botName);
    TrimWordBreaksOf(gap, rest);
    TrimEndOfTrimmed(rest);
    AfterIsBroken(gap, rest);
    assert FirstCommand([line], Mention(botName), Alias(botName)) == Classify(rest);
  }

  lemma AfterIsBroken(gap: string, rest: string)
    requires AllWordBreaks(gap) && (rest != "" ==> gap != "")
    ensures gap + rest != "" ==> IsWordBreak((gap + rest)[0])
  {
    hide IsWordBreak;
  }

  lemma TrimEndOfTrimmed(rest: string)
    requires rest != "" ==> !IsWhitespace(rest[|rest| - 1])
    ensures TrimEnd(rest) == rest
  {
  }

  lemma NewlineFreeParts(line: string, t: string)
    requires '\n' !in line && t == Trim(line)
    ensures '\n' !in t
  {
    hide Trim;
    var a, b := TrimExactly(line);
    assert forall i :: 0 <= i < |t| ==> (a + t + b)[|a| + i] == t[i];
  }

  lemma TrimTwice(s: string)
    ensures Trim(Trim(s)) == Trim(s)
  {
    hide Trim, AllWhitespace, IsTrimmed;
    var a, b := TrimExactly(s);
    NoWhitespace();
    TrimOfPadded("", Trim(s), "");
    assert "" + Trim(s) + "" == Trim(s);
  }

  lemma NoWhitespace()
    ensures AllWhitespace("")
  {
  }

  /** Whitespace around a one-line comment makes no difference. */
  lemma TrimmedLineParsesAlike(line: string, botName: string)
    requires '\n' !in line && Trim(line) != ""
    ensures ParseChatCommand(line, botName) == ParseChatCommand(Trim(line), botName)
  {
    hide AfterMention, Classify, Trim, ParseChatCommand;
    NewlineFreeParts(line, Trim(line));
    TrimTwice(line);
    TrimOfNothing();
    OneLineParse(line, botName);
    OneLineParse(Trim(line), botName);
    assert [line][1..] == [Trim(line)][1..] == [];
  }

  lemma TrimOfNothing()
    ensures Trim("") == ""
  {
  }

  /** The first word and the argument of a command. */
  lemma WordAndTail(word: string, tail: string)
    requires word != "" && IsWord(word) && (tail != "" ==> IsWhitespace(tail[0]))
    ensures FirstWord(word + tail) == word && Trim(AfterFirstWord(word + tail)) == Trim(tail)
  {
    hide IsWhitespace, FirstWord, Trim, IsWord;
    if tail == "" {
      assert word + tail == word;
      FirstWordWhole(word);
    } else {
      FirstWordOf(word, tail);
      assert (word + tail)[|word| + 1..] == tail[1..];
      TrimAfterBlank(tail);
    }
  }

  lemma TrimAfterBlank(tail: string)
    requires tail != "" && IsWhitespace(tail[0])
    ensures Trim(tail[1..]) == Trim(tail)
  {
    hide IsWhitespace, TrimEnd;
  }

  /** A one-line comment of the mention, a gap of blanks and separators, a word and a tail is the
      command that has the word among its keywords, up to ASCII case; any other word makes a
      question of all that follows the gap. */
  lemma CommandByKeyword(line: string, written: string, gap: string, word: string, tail: string, botName: string)
    requires '\n' !in line && Trim(line) == written + gap + (word + tail)
    requires IsMention(written, botName) && !IsWhitespace(written[|written| - 1])
    requires gap != "" && AllWordBreaks(gap)
    requires word != "" && IsWord(word) && !IsWordBreak(word[0]) && (tail != "" ==> IsWhitespace(tail[0]))
    ensures var cmd, arg := ParseChatCommand(line, botName), Trim(tail);
            && (cmd == ReReview <==> IsOneOf(word, ["re-review", "rereview", "review-again", "review_again"]))
            && (cmd == Autofix <==> IsOneOf(word, ["autofix", "auto-fix", "fix"]))
            && (cmd == Docstrings <==> IsOneOf(word, ["docstring", "docstrings", "docs"]))
            && (cmd == TestScaffolds <==> IsOneOf(word, ["tests", "test", "unit-tests", "scaffold-tests"]))
            && (cmd == Help <==>
                || IsOneOf(word, ["help", "?", "--help", "-h"])
                || (EqIgnoreAsciiCase(word, "remember") && arg == "")
                || (EqIgnoreAsciiCase(word, "forget") && ParseU64(arg) == None))
            && (EqIgnoreAsciiCase(word, "remember") && arg != "" ==> cmd == Remember(arg))
            && (EqIgnoreAsciiCase(word, "forget") && ParseU64(arg).Some? ==> cmd == Forget(ParseU64(arg).value))
            && (cmd.Remember? ==> EqIgnoreAsciiCase(word, "remember"))
            && (cmd.Forget? ==> EqIgnoreAsciiCase(word, "forget"))
            && (cmd.Freeform? ==> cmd == Freeform(word + tail))
            && cmd != NotMentioned && !cmd.ReviewCorrection?
  {
    hide *;
    var rest := word + tail;
    CommandLineParts(line, written, gap, rest);
    TrimmedLineParsesAlike(line, botName);
    RestOfTrimmed(line, written, gap, word, tail);
    RestDecides(written, gap, rest, botName);
    WordAndTail(word, tail);
    ClassifiedByWord(word, Trim(tail), rest);
  }

  lemma CommandLineParts(line: string, written: string, gap: string, rest: string)
    requires '\n' !in line && Trim(line) == written + gap + rest
    ensures '\n' !in written && '\n' !in gap && '\n' !in rest
    ensures Trim(written + gap + rest) == written + gap + rest
  {
    hide *;
    NewlineFreeParts(line, Trim(line));
    TrimTwice(line);
    var t := written + gap + rest;
    assert forall i :: 0 <= i < |written| ==> t[i] == written[i];
    assert forall i :: 0 <= i < |gap| ==> t[|written| + i] == gap[i];
    assert forall i :: 0 <= i < |rest| ==> t[|written| + |gap| + i] == rest[i];
  }

  lemma RestOfTrimmed(line: string, written: string, gap: string, word: string, tail: string)
    requires Trim(line) == written + gap + (word + tail) && word != "" && !IsWordBreak(word[0])
    ensures var rest := word + tail; !IsWordBreak(rest[0]) && !IsWhitespace(rest[|rest| - 1])
  {
    hide Trim, IsWhitespace, IsWordBreak;
    var a, b := TrimExactly(line);
    var t, rest := Trim(line), word + tail;
    assert t[|t| - 1] == rest[|rest| - 1];
  }

  lemma NothingAsksForHelp()
    ensures Classify("") == Help
  {
  }

  /** The mention alone, or followed by blanks and separators only, asks for help. */
  lemma MentionAloneIsHelp(line: string, written: string, gap: string, botName: string)
    requires '\n' !in line && Trim(line) == written + gap
    requires IsMention(written, botName) && !IsWhitespace(written[|written| - 1]) && AllWordBreaks(gap)
    ensures ParseChatCommand(line, botName) == Help
  {
    hide *;
    assert written + gap + "" == written + gap;
    CommandLineParts(line, written, gap, "");
    TrimmedLineParsesAlike(line, botName);
    RestDecides(written, gap, "", botName);
    NothingAsksForHelp();
  }

  // ----- Comments of several lines -----

  /** A line on its own is read as it is within a comment. */
  lemma LineOnItsOwn(line: string, botName: string)
    requires '\n' !in line
    ensures ParseChatCommand(line, botName) == FirstCommand([line], Mention(botName), Alias(botName))
  {
    if line == "" {
      TrimOfNothing();
      hide Trim, Classify;
      assert [line][1..] == [];
    } else {
      OneLineParse(line, botName);
    }
  }

  /** What a line gives, if it mentions the bot at all. */
  function LineCommand(line: string, mention: string, alias: Option<string>): ChatCommand {
    match AfterMention(Trim(line), mention, alias)
    case None => NotMentioned
    case Some(after) =>
      if after != "" && !IsWordBreak(after[0]) then NotMentioned else Classify(TrimEnd(TrimWordBreaks(after)))
  }

  lemma FirstCommandStep(lines: seq<string>, mention: string, alias: Option<string>)
    requires lines != []
    ensures var first := LineCommand(lines[0], mention, alias);
            FirstCommand(lines, mention, alias)
            == if first == NotMentioned then FirstCommand(lines[1..], mention, alias) else first
  {
    var after := AfterMention(Trim(lines[0]), mention, alias);
    hide Trim, AfterMention, Classify, TrimEnd, TrimWordBreaks, IsWordBreak;
    if after.Some? {
      ClassifiedIsMentioned(TrimEnd(TrimWordBreaks(after.value)));
    }
  }

  lemma FirstLineOrRest(line: string, rest: seq<string>, mention: string, alias: Option<string>)
    ensures var first := FirstCommand([line], mention, alias);
            FirstCommand([line] + rest, mention, alias)
            == if first == NotMentioned then FirstCommand(rest, mention, alias) else first
  {
    hide *;
    assert [line][1..] == [] && ([line] + rest)[1..] == rest;
    NoLineMentions(mention, alias);
    FirstCommandStep([line], mention, alias);
    FirstCommandStep([line] + rest, mention, alias);
  }

  lemma {:induction false} FirstMentioned(lines: seq<string>, k: nat, botName: string)
    requires k <= |lines| && forall i :: 0 <= i < |lines| ==> '\n' !in lines[i]
    requires forall i :: 0 <= i < k ==> ParseChatCommand(lines[i], botName) == NotMentioned
    requires k < |lines| ==> ParseChatCommand(lines[k], botName) != NotMentioned
    ensures FirstCommand(lines, Mention(botName), Alias(botName))
            == if k < |lines| then ParseChatCommand(lines[k], botName) else NotMentioned
  {
    hide ParseChatCommand, FirstCommand;
    if lines == [] {
      NoLineMentions(Mention(botName), Alias(botName));
    } else {
      assert lines == [lines[0]] + lines[1..];
      LineOnItsOwn(lines[0], botName);
      FirstLineOrRest(lines[0], lines[1..], Mention(botName), Alias(botName));
      if k > 0 {
        FirstMentioned(lines[1..], k - 1, botName);
      }
    }
  }

  lemma NoLineMentions(mention: string, alias: Option<string>)
    ensures FirstCommand([], mention, alias) == NotMentioned
  {
  }

  lemma {:induction false} LinesHaveNoNewline(s: string, k: nat)
    requires k < |Lines(s)|
    ensures '\n' !in Lines(s)[k]
    decreases |s|
  {
    hide FindChar;
    var i := FindChar(s, '\n');
    if i == |s| {
      assert s[..|s|] == s;
    } else if k == 0 {
      StripCrIsPrefix(s[..i]);
    } else {
      LinesHaveNoNewline(s[i + 1..], k - 1);
    }
  }

  /** A comment that is no quote reply is the command of its first line that is one. */
  lemma FirstMentionDecides(body: string, k: nat, botName: string)
    requires !IsQuoteReply(body, botName) && k <= |Lines(body)|
    requires forall i :: 0 <= i < k ==> ParseChatCommand(Lines(body)[i], botName) == NotMentioned
    requires k < |Lines(body)| ==> ParseChatCommand(Lines(body)[k], botName) != NotMentioned
    ensures ParseChatCommand(body, botName)
            == if k < |Lines(body)| then ParseChatCommand(Lines(body)[k], botName) else NotMentioned
  {
    var lines := Lines(body);
    hide FirstCommand, Prose, Join, Trim, TrimStart, AfterMention, Lines;
    forall i | 0 <= i < |lines|
      ensures '\n' !in lines[i]
    {
      LinesHaveNoNewline(body, i);
    }
    FirstMentioned(lines, k, botName);
  }

  // ----- Quote replies -----

  /** The first line mentions the bot and goes on "wrote in ". */
  predicate IsQuoteReply(body: string, botName: string) {
    && Lines(body) != []
    && var after := AfterMention(Trim(Lines(body)[0]), Mention(botName), Alias(botName));
       after.Some? && "wrote in " <= TrimStart(after.value)
  }

  /** Neither blank nor quoted. */
  predicate IsProse(line: string) {
    Trim(line) != "" && Trim(line)[0] != '>'
  }

  predicate Increases(ks: seq<nat>) {
    forall i, j :: 0 <= i < j < |ks| ==> ks[i] < ks[j]
  }

  /** `ks` are the places of the prose lines, and `texts` those lines, trimmed, in order. */
  ghost predicate IsProseOf(lines: seq<string>, ks: seq<nat>, texts: seq<string>) {
    && Increases(ks) && |texts| == |ks|
    && (forall k: nat :: k in ks <==> k < |lines| && IsProse(lines[k]))
    && forall j :: 0 <= j < |ks| ==> ks[j] < |lines| && texts[j] == Trim(lines[ks[j]])
  }

  lemma {:induction false} ProsePlaces(lines: seq<string>) returns (ks: seq<nat>)
    ensures IsProseOf(lines, ks, Prose(lines))
  {
    if lines == [] {
      ks := [];
    } else {
      var rest := ProsePlaces(lines[1..]);
      ProseStep(lines);
      ks := OneMorePlace(lines, rest, Prose(lines[1..]));
    }
  }

  lemma ProseStep(lines: seq<string>)
    requires lines != []
    ensures Prose(lines) == (if IsProse(lines[0]) then [Trim(lines[0])] else []) + Prose(lines[1..])
  {
    hide Trim;
  }

  /** The same for the lines below the first. */
  ghost predicate IsProseBelow(lines: seq<string>, ks: seq<nat>, texts: seq<string>) {
    && Increases(ks) && |texts| == |ks|
    && (forall k: nat :: k in ks <==> 0 < k < |lines| && IsProse(lines[k]))
    && forall j :: 0 <= j < |ks| ==> ks[j] < |lines| && texts[j] == Trim(lines[ks[j]])
  }

  function Shifted(ks: seq<nat>): (r: seq<nat>)
    ensures |r| == |ks| && forall i :: 0 <= i < |ks| ==> r[i] == ks[i] + 1
  {
    seq(|ks|, i requires 0 <= i < |ks| => ks[i] + 1)
  }

  lemma OneMorePlace(lines: seq<string>, rest: seq<nat>, texts: seq<string>) returns (ks: seq<nat>)
    requires lines != [] && IsProseOf(lines[1..], rest, texts)
    ensures IsProseOf(lines, ks, (if IsProse(lines[0]) then [Trim(lines[0])] else []) + texts)
  {
    hide *;
    PlacesBelow(lines, rest, texts);
    if IsProse(lines[0]) {
      ks := [0] + Shifted(rest);
      FirstPlace(lines, Shifted(rest), texts);
    } else {
      ks := Shifted(rest);
      assert [] + texts == texts;
      NoFirstPlace(lines, ks, texts);
    }
  }

  lemma NoFirstPlace(lines: seq<string>, ks: seq<nat>, texts: seq<string>)
    requires lines != [] && !IsProse(lines[0]) && IsProseBelow(lines, ks, texts)
    ensures IsProseOf(lines, ks, texts)
  {
    hide IsProse, Trim, Increases;
  }

  lemma FirstPlace(lines: seq<string>, ks: seq<nat>, texts: seq<string>)
    requires lines != [] && IsProse(lines[0]) && IsProseBelow(lines, ks, texts)
    ensures IsProseOf(lines, [0] + ks, [Trim(lines[0])] + texts)
  {
    hide IsProse, Trim;
    forall k: nat
      ensures k in [0] + ks <==> k < |lines| && IsProse(lines[k])
    {
      assert k in [0] + ks <==> k == 0 || k in ks;
    }
    assert forall i :: 0 <= i < |ks| ==> ks[i] in ks;
  }

  lemma PlacesBelow(lines: seq<string>, rest: seq<nat>, texts: seq<string>)
    requires lines != [] && IsProseOf(lines[1..], rest, texts)
    ensures IsProseBelow(lines, Shifted(rest), texts)
  {
    hide IsProse, Trim, Shifted;
    var ks := Shifted(rest);
    forall k: nat
      ensures k in ks <==> 0 < k < |lines| && IsProse(lines[k])
    {
      ShiftedPlace(lines, rest, texts, k);
    }
  }

  lemma ShiftedPlace(lines: seq<string>, rest: seq<nat>, texts: seq<string>, k: nat)
    requires lines != [] && IsProseOf(lines[1..], rest, texts)
    ensures k in Shifted(rest) <==> 0 < k < |lines| && IsProse(lines[k])
  {
    hide IsProse, Trim, Shifted, Increases;
    if k > 0 {
      assert k - 1 in rest <==> k - 1 < |lines[1..]| && IsProse(lines[1..][k - 1]);
      if k - 1 in rest {
        var i :| 0 <= i < |rest| && rest[i] == k - 1;
        assert Shifted(rest)[i] == k;
      }
    }
  }

  predicate AreLines(texts: seq<string>) {
    forall i :: 0 <= i < |texts| ==> texts[i] != "" && '\n' !in texts[i] && IsTrimmed(texts[i])
  }

  /** Joined by newlines and split at them again. */
  lemma {:induction false} JoinedReadsBack(texts: seq<string>)
    requires AreLines(texts)
    ensures Lines(Join(texts)) == texts
    ensures texts != [] ==> Join(texts) != "" && Join(texts)[|Join(texts)| - 1] != '\n'
  {
    if texts != [] {
      var t := texts[0];
      assert IsWhitespace('\r');
      hide IsWhitespace, Lines;
      assert StripCr(t) == t;
      if |texts| == 1 {
        LinesOfOneLine(t);
      } else {
        JoinedReadsBack(texts[1..]);
        LinesOfConcat(t, Join(texts[1..]));
      }
    } else {
      assert Lines("") == [];
    }
  }

  lemma ProseAreLines(lines: seq<string>, ks: seq<nat>, texts: seq<string>)
    requires IsProseOf(lines, ks, texts) && forall i :: 0 <= i < |lines| ==> '\n' !in lines[i]
    ensures AreLines(texts)
  {
    hide Trim, IsTrimmed;
    forall j | 0 <= j < |texts|
      ensures texts[j] != "" && '\n' !in texts[j] && IsTrimmed(texts[j])
    {
      var line := lines[ks[j]];
      assert ks[j] in ks;
      NewlineFreeParts(line, Trim(line));
      var _, _ := TrimExactly(line);
    }
  }

  /** What joining is: one text as it is, and a newline between any two parts. */
  lemma {:induction false} JoinOfParts(front: seq<string>, back: seq<string>, text: string)
    requires front != [] && back != []
    ensures Join([text]) == text
    ensures Join(front + back) == Join(front) + "\n" + Join(back)
  {
    if |front| == 1 {
      assert (front + back)[1..] == back;
    } else {
      assert (front + back)[1..] == front[1..] + back;
      JoinOfParts(front[1..], back, text);
      JoinAround(front[0], Join(front[1..]), Join(back));
    }
  }

  lemma JoinAround(a: string, b: string, c: string)
    ensures a + "\n" + (b + "\n" + c) == a + "\n" + b + "\n" + c
  {
  }

  /** The lines below the first. */
  function Below(lines: seq<string>): seq<string> {
    if lines == [] then [] else lines[1..]
  }

  lemma BelowHasNoNewline(body: string)
    ensures forall i :: 0 <= i < |Below(Lines(body))| ==> '\n' !in Below(Lines(body))[i]
  {
    hide Lines;
    forall i | 0 <= i < |Below(Lines(body))|
      ensures '\n' !in Below(Lines(body))[i]
    {
      LinesHaveNoNewline(body, i + 1);
    }
  }

  /** A comment is a review correction if and only if it is a quote reply with some line below the
      first that is neither blank nor quoted; the correction is exactly those lines, trimmed, in
      order, joined by newlines. */
  lemma CorrectionIff(body: string, botName: string) returns (ks: seq<nat>, texts: seq<string>)
    ensures IsProseOf(Below(Lines(body)), ks, texts)
    ensures var cmd := ParseChatCommand(body, botName);
            && (cmd.ReviewCorrection? <==> IsQuoteReply(body, botName) && ks != [])
            && (cmd.ReviewCorrection? ==> cmd.correction == Join(texts) && Lines(cmd.correction) == texts)
  {
    hide *;
    var rest := Below(Lines(body));
    ks := ProsePlaces(rest);
    texts := Prose(rest);
    BelowHasNoNewline(body);
    ProseCount(rest, ks, texts);
    ProseAreLines(rest, ks, texts);
    JoinedReadsBack(texts);
    EmptyJoin();
    CorrectionOfProse(body, texts, botName);
  }

  lemma ProseCount(lines: seq<string>, ks: seq<nat>, texts: seq<string>)
    requires IsProseOf(lines, ks, texts)
    ensures ks == [] <==> texts == []
  {
    hide IsProse, Trim;
  }

  lemma EmptyJoin()
    ensures Join([]) == ""
  {
  }

  lemma CorrectionOfProse(body: string, texts: seq<string>, botName: string)
    requires texts == Prose(Below(Lines(body)))
    ensures var cmd := ParseChatCommand(body, botName);
            && (cmd.ReviewCorrection? <==> IsQuoteReply(body, botName) && Join(texts) != "")
            && (cmd.ReviewCorrection? ==> cmd.correction == Join(texts))
  {
    hide Lines, Trim, TrimStart, AfterMention, Prose, Join, Mention, Alias;
    if ParseReviewCorrection(body, Mention(botName), Alias(botName)) == None {
      NoCorrectionOnLines(Lines(body), Mention(botName), Alias(botName));
    }
  }

  lemma {:induction false} NoCorrectionOnLines(lines: seq<string>, mention: string, alias: Option<string>)
    ensures !FirstCommand(lines, mention, alias).ReviewCorrection?
  {
    hide Trim, AfterMention, TrimEnd, TrimWordBreaks;
    if lines != [] {
      NoCorrectionOnLines(lines[1..], mention, alias);
    }
  }

  // ----- The revoke command that `handle_remember` prints -----

  function RevokeCommand(id: nat): string {
    "@auto-review" + " " + "forget" + " " + Decimal(id)
  }

  /** `handle_remember`'s reply. */
  function RememberReply(id: nat): string {
    "Remembered as learning #" + Decimal(id) + ". To revoke later: " + "`" + RevokeCommand(id) + "`" + "."
  }

  /** What a reader copies from a reply: the text between its first two backticks. */
  function QuotedCommand(reply: string): string {
    var i := FindChar(reply, '`');
    if i == |reply| then ""
    else
      var rest := reply[i + 1..];
      rest[..FindChar(rest, '`')]
  }

  lemma QuotedBetween(before: string, quoted: string, after: string)
    requires '`' !in before && '`' !in quoted
    ensures QuotedCommand(before + "`" + quoted + "`" + after) == quoted
  {
    hide FindChar;
    var reply := before + "`" + quoted + "`" + after;
    assert reply[..|before|] == before;
    FindCharAt(reply, '`', |before|);
    var rest := reply[|before| + 1..];
    assert rest == quoted + "`" + after && rest[..|quoted|] == quoted;
    FindCharAt(rest, '`', |quoted|);
  }

  /** The revoke command is what stands between the backticks of the reply. */
  lemma ReplyQuotesTheCommand(id: nat)
    ensures QuotedCommand(RememberReply(id)) == RevokeCommand(id)
  {
    hide QuotedCommand, Decimal;
    DigitsHaveNoBacktick(id);
    assert '`' !in "Remembered as learning #" && '`' !in ". To revoke later: ";
    var before := "Remembered as learning #" + Decimal(id) + ". To revoke later: ";
    assert '`' !in "@auto-review" + " " + "forget" + " ";
    QuotedBetween(before, RevokeCommand(id), ".");
  }

  lemma DigitsHaveNoBacktick(n: nat)
    ensures '`' !in Decimal(n)
  {
    forall c | c in Decimal(n)
      ensures IsDigit(c)
    {
    }
  }

  lemma WordAndArgument(head: string, arg: string)
    requires IsWord(head)
    requires arg != "" && !IsWhitespace(arg[0]) && !IsWhitespace(arg[|arg| - 1])
    ensures FirstWord(head + " " + arg) == head
    ensures Trim(AfterFirstWord(head + " " + arg)) == arg
  {
    assert IsWhitespace(' ');
    hide FirstWord, Trim, IsWhitespace;
    var rest := head + " " + arg;
    assert rest == head + (" " + arg);
    FirstWordOf(head, " " + arg);
    assert AfterFirstWord(rest) == arg;
    TrimOfTrimmed(arg);
  }

  lemma ForgetKeyword()
    ensures IsWord("forget") && ToAsciiLower("forget") == "forget"
  {
  }

  lemma DecimalEnds(n: nat)
    ensures var s := Decimal(n); !IsWhitespace(s[0]) && !IsWhitespace(s[|s| - 1])
  {
    DigitsAreNotWhitespace(Decimal(n)[0]);
    DigitsAreNotWhitespace(Decimal(n)[|Decimal(n)| - 1]);
  }

  lemma ForgetIsClassified(id: nat)
    requires id < U64_LIMIT
    ensures Classify("forget" + " " + Decimal(id)) == Forget(id)
  {
    hide ClassifyBareWord, Trim, FirstWord, AfterFirstWord, ToAsciiLower, ParseU64, Decimal, IsWhitespace, IsWord;
    ForgetKeyword();
    DecimalEnds(id);
    WordAndArgument("forget", Decimal(id));
    assert |"remember"| != |"forget"|;
    ParseU64ReadsBack(id);
  }

  /** A one-line comment `mention rest`, for a bot whose name matches the mention. */
  lemma MentionThenRest(written: string, rest: string, mention: string, alias: Option<string>)
    requires written != "" && !IsWhitespace(written[0]) && '\n' !in written
    requires rest != "" && !IsWordBreak(rest[0]) && !IsWhitespace(rest[|rest| - 1]) && '\n' !in rest
    requires EqIgnoreAsciiCase(written, mention)
    ensures var line := written + " " + rest;
            && Lines(line) == [line] && Trim(line) == line
            && AfterMention(line, mention, alias) == Some(" " + rest)
            && FirstCommand(Lines(line), mention, alias) == Classify(rest)
  {
    hide IsWordBreak, IsWhitespace, Classify, Lines, Trim, TrimWordBreaks, TrimEnd, EqIgnoreAsciiCase, AfterMention;
    var line := written + " " + rest;
    RestAfterMention(written, rest, mention, alias);
    RestIsTrimmed(rest);
    LinesOfOneLine(line);
    TrimOfTrimmed(line);
    assert FirstCommand([line], mention, alias) == Classify(rest);
  }

  lemma RestAfterMention(written: string, rest: string, mention: string, alias: Option<string>)
    requires EqIgnoreAsciiCase(written, mention)
    ensures AfterMention(written + " " + rest, mention, alias) == Some(" " + rest) && IsWordBreak(' ')
  {
    var line := written + " " + rest;
    assert line[..|mention|] == written && line[|mention|..] == " " + rest;
  }

  lemma RestIsTrimmed(rest: string)
    requires rest != "" && !IsWordBreak(rest[0]) && !IsWhitespace(rest[|rest| - 1])
    ensures TrimWordBreaks(" " + rest) == rest && TrimEnd(rest) == rest
  {
    assert IsWordBreak(' ');
    hide IsWordBreak, IsWhitespace;
    assert (" " + rest)[1..] == rest;
  }

  lemma RevokeForOurBot(id: nat, botName: string)
    requires id < U64_LIMIT && EqIgnoreAsciiCase(botName, "auto-review")
    ensures ParseChatCommand(RevokeCommand(id), botName) == Forget(id)
  {
    hide IsWhitespace, IsWordBreak, Classify, Lines, Trim, TrimStart, AfterMention, FirstCommand;
    hide RevokeCommand, EqIgnoreAsciiCase, Decimal, Prose, Join;
    var written, rest := "@auto-review", "forget" + " " + Decimal(id);
    RevokeShape(id);
    MentionMatchesName(botName);
    MentionThenRest(written, rest, Mention(botName), Alias(botName));
    ForgetIsClassified(id);
    assert "wrote in "[0] == 'w';
  }

  lemma MentionMatchesName(botName: string)
    requires EqIgnoreAsciiCase(botName, "auto-review")
    ensures EqIgnoreAsciiCase("@auto-review", Mention(botName))
    ensures EqIgnoreAsciiCase("@auto-review", "@auto-review")
    ensures '\n' !in "@auto-review" && !IsWhitespace("@auto-review"[0])
  {
    assert "@auto-review" == "@" + "auto-review";
  }

  lemma RevokeShape(id: nat)
    ensures var rest := "forget" + " " + Decimal(id);
            && RevokeCommand(id) == "@auto-review" + " " + rest
            && !IsWordBreak(rest[0]) && '\n' !in rest && rest[0] == 'f' && !IsWhitespace(rest[|rest| - 1])
            && TrimStart(" " + rest) == rest
  {
    var digits := Decimal(id);
    var rest := "forget" + " " + digits;
    assert rest[|rest| - 1] == digits[|digits| - 1];
    DigitsAreNotWhitespace(digits[|digits| - 1]);
    assert '\n' !in digits && '\n' !in "forget" && '\n' !in " ";
    assert rest[0] == 'f' && !IsWordBreak('f') && IsWhitespace(' ') && !IsWhitespace('f');
    hide IsWhitespace, IsWordBreak, IsDigit, Decimal;
    assert (" " + rest)[1..] == rest;
    assert TrimStart(rest) == rest;
  }

  /** Where the line has an f, and where it has a word break. */
  lemma RevokeCharacters(id: nat, k: nat)
    requires k < |RevokeCommand(id)|
    ensures AsciiLower(RevokeCommand(id)[k]) == 'f' ==> k == 13
    ensures IsWordBreak(RevokeCommand(id)[k]) ==> k == 12 || k == 19
  {
    hide Decimal;
    var digits := Decimal(id);
    var head := "@auto-review" + " " + "forget" + " ";
    assert RevokeCommand(id) == head + digits && |head| == 20;
    if k < 12 {
      assert head[k] == "@auto-review"[k];
    } else if 12 < k < 19 {
      assert head[k] == "forget"[k - 13];
    } else if 20 <= k {
      assert IsDigit(digits[k - 20]);
    }
  }

  lemma ClassifiedAsForget(rest: string)
    requires Classify(rest).Forget?
    ensures rest != "" && AsciiLower(rest[0]) == 'f'
  {
    var head := FirstWord(rest);
    assert ToAsciiLower(head) == "forget" ==> AsciiLower(head[0]) == "forget"[0];
  }

  /** What a command on a one-line comment says about that line. */
  lemma OneLineCommand(line: string, botName: string)
    requires Lines(line) == [line] && Trim(line) == line
    requires ParseChatCommand(line, botName).Forget?
    ensures var after := AfterMention(line, Mention(botName), Alias(botName));
            && after.Some?
            && (after.value == "" || IsWordBreak(after.value[0]))
            && Classify(TrimEnd(TrimWordBreaks(after.value))).Forget?
  {
    hide IsWhitespace, IsWordBreak, Classify, Lines, Trim, TrimEnd, TrimStart, TrimWordBreaks;
    hide StripMention, AfterMention, Prose, Join, Mention, Alias;
    var lines := Lines(line);
    assert FirstCommand(lines[1..], Mention(botName), Alias(botName)) == NotMentioned;
  }

  /** The keyword's f stands past the mention, behind a word break. */
  lemma ForgetPosition(line: string, m: nat) returns (p: nat)
    requires m <= |line|
    requires line[m..] == "" || IsWordBreak(line[m..][0])
    requires Classify(TrimEnd(TrimWordBreaks(line[m..]))).Forget?
    ensures m < p < |line| && IsWordBreak(line[m]) && AsciiLower(line[p]) == 'f'
  {
    var trimmed := TrimWordBreaks(line[m..]);
    TrimWordBreaksIsSuffix(line[m..]);
    TrimEndIsPrefix(trimmed);
    ClassifiedAsForget(TrimEnd(trimmed));
    hide IsWhitespace, IsWordBreak, Classify, AsciiLower, TrimWordBreaks;
    p := |line| - |trimmed|;
    assert line[p] == trimmed[0];
  }

  lemma RevokeIsOneLine(id: nat)
    ensures Lines(RevokeCommand(id)) == [RevokeCommand(id)] && Trim(RevokeCommand(id)) == RevokeCommand(id)
  {
    hide IsWhitespace, IsWordBreak, Lines, Trim, RevokeCommand, Decimal, EqIgnoreAsciiCase;
    RevokeShape(id);
    MentionMatchesName("auto-review");
    MentionThenRest("@auto-review", "forget" + " " + Decimal(id), "@auto-review", None);
  }

  /** The only place behind which the line can say forget is the end of the mention. */
  lemma RevokeMentionEnds(id: nat, m: nat)
    requires var line := RevokeCommand(id);
             && m <= |line|
             && (line[m..] == "" || IsWordBreak(line[m..][0]))
             && Classify(TrimEnd(TrimWordBreaks(line[m..]))).Forget?
    ensures m == 12
  {
    hide IsWordBreak, Classify, TrimEnd, TrimWordBreaks, RevokeCommand, AsciiLower;
    var p := ForgetPosition(RevokeCommand(id), m);
    RevokeCharacters(id, p);
    RevokeCharacters(id, m);
  }

  /** The revoke command mentions some bot, and says forget behind the mention. */
  lemma RevokeSaysForget(id: nat, botName: string)
    requires ParseChatCommand(RevokeCommand(id), botName) == Forget(id)
    ensures var after := AfterMention(RevokeCommand(id), Mention(botName), Alias(botName));
            && after.Some? && (after.value == "" || IsWordBreak(after.value[0]))
            && Classify(TrimEnd(TrimWordBreaks(after.value))).Forget?
  {
    hide *;
    RevokeIsOneLine(id);
    OneLineCommand(RevokeCommand(id), botName);
  }

  lemma RevokeThroughTheMention(id: nat, botName: string)
    requires ParseChatCommand(RevokeCommand(id), botName) == Forget(id)
    requires StripMention(RevokeCommand(id), Mention(botName)).Some?
    ensures |Mention(botName)| == 12
  {
    hide *;
    RevokeSaysForget(id, botName);
    MentionOrAlias(RevokeCommand(id), botName);
    RevokeMentionEnds(id, |Mention(botName)|);
  }

  lemma RevokeOnlyForOurBot(id: nat, botName: string)
    requires ParseChatCommand(RevokeCommand(id), botName) == Forget(id)
    ensures EqIgnoreAsciiCase(botName, "auto-review")
  {
    hide *;
    if StripMention(RevokeCommand(id), Mention(botName)).Some? {
      RevokeThroughTheMention(id, botName);
      MentionIsOurs(id, botName);
    } else {
      RevokeSaysForget(id, botName);
      MentionOrAlias(RevokeCommand(id), botName);
      EqIgnoreCaseReflexive("auto-review");
    }
  }

  lemma EqIgnoreCaseReflexive(s: string)
    ensures EqIgnoreAsciiCase(s, s)
  {
  }

  lemma MentionOrAlias(line: string, botName: string)
    ensures var mention := Mention(botName);
            var after := AfterMention(line, mention, Alias(botName));
            && (StripMention(line, mention).Some? ==>
                  |mention| <= |line| && after == Some(line[|mention|..]))
            && (StripMention(line, mention).None? && after.Some? ==> botName == "auto-review")
  {
  }

  lemma MentionIsOurs(id: nat, botName: string)
    requires StripMention(RevokeCommand(id), Mention(botName)).Some? && |Mention(botName)| == 12
    ensures EqIgnoreAsciiCase(botName, "auto-review")
  {
    var line := RevokeCommand(id);
    assert line[..12] == "@auto-review";
    forall i | 0 <= i < 11
      ensures AsciiLower(botName[i]) == AsciiLower("auto-review"[i])
    {
      assert Mention(botName)[i + 1] == botName[i];
      assert "@auto-review"[i + 1] == "auto-review"[i];
      assert AsciiLower(line[..12][i + 1]) == AsciiLower(Mention(botName)[i + 1]);
    }
  }

  lemma RevokeOfAutoReview(id: nat)
    requires id < U64_LIMIT
    ensures ParseChatCommand(RevokeCommand(id), "auto-review") == Forget(id)
  {
    RevokeForOurBot(id, "auto-review");
  }

  /** The printed command revokes the learning it was printed for exactly when the bot's
      configured name is "auto-review" up to case: the reply hard-codes that name. */
  lemma RevokeCommandRoundTrip(id: nat, botName: string)
    requires id < U64_LIMIT
    ensures ParseChatCommand(QuotedCommand(RememberReply(id)), botName) == Forget(id) <==>
            EqIgnoreAsciiCase(botName, "auto-review")
  {
    hide ParseChatCommand, RevokeCommand, RememberReply, QuotedCommand, EqIgnoreAsciiCase;
    ReplyQuotesTheCommand(id);
    if EqIgnoreAsciiCase(botName, "auto-review") {
      RevokeForOurBot(id, botName);
    } else if ParseChatCommand(RevokeCommand(id), botName) == Forget(id) {
      RevokeOnlyForOurBot(id, botName);
    }
  }
}
