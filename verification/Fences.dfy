/** Fenced code blocks as section 4.5 of the CommonMark Spec 0.31.2 reads them at the top level
of a document: lines end at "\n", "\r\n" or a lone "\r". Containers and other leaf blocks are
not read. */
module Fences {
  import opened Text

  // ----- Lines with their endings -----

  predicate IsEol(c: char) {
    c == '\n' || c == '\r'
  }

  predicate NoEol(s: string) {
    forall i :: 0 <= i < |s| ==> !IsEol(s[i])
  }

  /** Length of the first line without its ending. */
  function BodyLength(s: string): (n: nat)
    ensures n <= |s| && (forall i :: 0 <= i < n ==> !IsEol(s[i]))
    ensures n < |s| ==> IsEol(s[n])
  {
    if s == "" || IsEol(s[0]) then 0 else BodyLength(s[1..]) + 1
  }

  function LineLength(s: string): (n: nat)
    ensures BodyLength(s) <= n <= |s| && (s != "" ==> n > 0)
  {
    var n := BodyLength(s);
    if n == |s| then n else if s[n] == '\r' && n + 1 < |s| && s[n + 1] == '\n' then n + 2 else n + 1
  }

  function RawLines(s: string): seq<string>
    decreases |s|
  {
    if s == "" then [] else [s[..LineLength(s)]] + RawLines(s[LineLength(s)..])
  }

  function Body(line: string): string {
    line[..BodyLength(line)]
  }

  function Join(lines: seq<string>): string {
    if lines == [] then "" else Join(lines[..|lines| - 1]) + lines[|lines| - 1]
  }

  lemma JoinSnoc(a: seq<string>, line: string)
    ensures Join(a + [line]) == Join(a) + line
  {
    assert (a + [line])[..|a|] == a;
  }

  lemma {:induction false} JoinConcat(a: seq<string>, b: seq<string>)
    ensures Join(a + b) == Join(a) + Join(b)
  {
    hide Join;
    if b == [] {
      assert a + b == a;
      JoinOfNone();
    } else {
      var n := |b| - 1;
      JoinConcat(a, b[..n]);
      JoinSnoc(a + b[..n], b[n]);
      JoinSnoc(b[..n], b[n]);
      assert a + b == a + b[..n] + [b[n]] && b == b[..n] + [b[n]];
    }
  }

  lemma JoinOfNone()
    ensures Join([]) == ""
  {
  }

  lemma {:induction false} JoinOfRawLines(s: string)
    ensures Join(RawLines(s)) == s
    decreases |s|
  {
    hide LineLength;
    if s != "" {
      var n := LineLength(s);
      JoinOfRawLines(s[n..]);
      JoinConcat([s[..n]], RawLines(s[n..]));
      JoinOfOne(s[..n]);
    }
  }

  lemma JoinOfOne(line: string)
    ensures Join([line]) == line
  {
    assert [line][..0] == [];
  }

  lemma {:induction false} BodyLengthIs(s: string, n: nat)
    requires n <= |s| && (forall i :: 0 <= i < n ==> !IsEol(s[i])) && (n < |s| ==> IsEol(s[n]))
    ensures BodyLength(s) == n
  {
    if n > 0 {
      BodyLengthIs(s[1..], n - 1);
    }
  }

  /** Text that may be followed by anything without merging lines. */
  predicate EndsLine(s: string) {
    s == "" || s[|s| - 1] == '\n'
  }

  lemma {:induction false} RawLinesConcat(a: string, b: string)
    requires EndsLine(a)
    ensures RawLines(a + b) == RawLines(a) + RawLines(b)
    decreases |a|
  {
    hide LineLength, EndsLine, RawLines;
    if a == "" {
      assert a + b == b;
      NoRawLines();
    } else {
      var first, rest := FirstRawLine(a);
      FirstLineOfConcat(a, b);
      RestEndsLine(a, |first|);
      RawLinesConcat(rest, b);
      RawLinesOfSplit(a + b, first, rest + b);
      assert [first] + (RawLines(rest) + RawLines(b)) == [first] + RawLines(rest) + RawLines(b);
    }
  }

  lemma NoRawLines()
    ensures RawLines("") == []
  {
  }

  lemma FirstRawLine(s: string) returns (first: string, rest: string)
    requires s != ""
    ensures s == first + rest && first == s[..LineLength(s)] && rest == s[LineLength(s)..] && first != ""
    ensures RawLines(s) == [first] + RawLines(rest)
  {
    hide LineLength;
    first, rest := s[..LineLength(s)], s[LineLength(s)..];
  }

  lemma RawLinesOfSplit(s: string, first: string, rest: string)
    requires s == first + rest && LineLength(s) == |first| > 0
    ensures RawLines(s) == [first] + RawLines(rest)
  {
    hide LineLength;
    assert s[..|first|] == first && s[|first|..] == rest;
  }

  lemma FirstLineOfConcat(a: string, b: string)
    requires EndsLine(a) && a != ""
    ensures LineLength(a + b) == LineLength(a)
  {
    hide BodyLength;
    assert IsEol(a[|a| - 1]);
    BodyLengthIs(a + b, BodyLength(a));
  }

  lemma RestEndsLine(a: string, k: nat)
    requires EndsLine(a) && k <= |a|
    ensures EndsLine(a[k..])
  {
  }

  lemma RawLinesOfLine(t: string)
    requires NoEol(t)
    ensures RawLines(t + "\n") == [t + "\n"] && Body(t + "\n") == t
    ensures t != "" ==> RawLines(t) == [t]
    ensures Body(t) == t
  {
    var s := t + "\n";
    assert s[..|t|] == t && t[..|t|] == t;
    BodyLengthIs(s, |t|);
    BodyLengthIs(t, |t|);
    hide BodyLength;
    assert s[..|s|] == s && RawLines(s[|s|..]) == [] == RawLines(t[|t|..]);
  }

  // ----- Fences -----

  function LeadingRun(s: string, c: char): (n: nat)
    ensures n <= |s| && (forall i :: 0 <= i < n ==> s[i] == c)
    ensures n < |s| ==> s[n] != c
  {
    if s == "" || s[0] != c then 0 else LeadingRun(s[1..], c) + 1
  }

  /** `info` is kept with the blanks around it. */
  datatype Fence = Fence(c: char, length: nat, indent: nat, info: string)

  predicate IsBlankTail(s: string) {
    forall i :: 0 <= i < |s| ==> s[i] == ' ' || s[i] == '\t'
  }

  /** An opening fence: up to three spaces, at least three backticks or tildes, and an info
      string, which after backticks has no backtick. */
  function Opening(line: string): Option<Fence> {
    var body := Body(line);
    var indent := LeadingRun(body, ' ');
    var rest := body[indent..];
    if indent > 3 || rest == "" || (rest[0] != '`' && rest[0] != '~') then None
    else
      var length := LeadingRun(rest, rest[0]);
      var info := rest[length..];
      if length < 3 || (rest[0] == '`' && '`' in info) then None else Some(Fence(rest[0], length, indent, info))
  }

  /** A closing fence: up to three spaces, at least as many of the same character, then blanks. */
  predicate Closes(line: string, fence: Fence) {
    var body := Body(line);
    var indent := LeadingRun(body, ' ');
    var length := LeadingRun(body[indent..], fence.c);
    indent <= 3 && length >= fence.length && IsBlankTail(body[indent + length..])
  }

  function Unindent(line: string, indent: nat): string {
    var n := LeadingRun(line, ' ');
    line[if n < indent then n else indent..]
  }

  datatype Block = Block(info: string, content: string)

  /** `open` is the fence the reader is inside of, `content` what it has read inside. */
  datatype Reader = Reader(done: seq<Block>, open: Option<Fence>, content: string)

  const START := Reader([], None, "")

  function Step(r: Reader, line: string): Reader {
    match r.open
    case None => if Opening(line).Some? then Reader(r.done, Opening(line), "") else r
    case Some(fence) =>
      if Closes(line, fence) then Reader(r.done + [Block(fence.info, r.content)], None, "")
      else r.(content := r.content + Unindent(line, fence.indent))
  }

  function Read(lines: seq<string>, r: Reader): Reader {
    if lines == [] then r else Step(Read(lines[..|lines| - 1], r), lines[|lines| - 1])
  }

  /** A block that is still open at the end of the document ends there. */
  function Finish(r: Reader): seq<Block> {
    match r.open
    case None => r.done
    case Some(fence) => r.done + [Block(fence.info, r.content)]
  }

  function Blocks(text: string): seq<Block> {
    Finish(Read(RawLines(text), START))
  }

  // ----- The reader over concatenations -----

  lemma {:induction false} ReadConcat(a: seq<string>, b: seq<string>, r: Reader)
    ensures Read(a + b, r) == Read(b, Read(a, r))
  {
    hide Step;
    if b == [] {
      assert a + b == a;
    } else {
      var n := |b| - 1;
      ReadConcat(a, b[..n], r);
      assert (a + b)[..|a| + n] == a + b[..n];
    }
  }

  lemma ReadOne(line: string, r: Reader)
    ensures Read([line], r) == Step(r, line)
  {
    hide Step;
    assert [line][..0] == [];
  }

  /** What has been read is never taken back: blocks that are done stay, and the open one,
      done or not, keeps what it has. */
  predicate Extends(before: seq<Block>, after: seq<Block>, done: nat) {
    && done <= |before| <= |after|
    && before[..done] == after[..done]
    && forall i :: done <= i < |before| ==> before[i].content <= after[i].content
  }

  lemma StepExtends(r: Reader, line: string)
    ensures r.done <= Step(r, line).done
    ensures Extends(Finish(r), Finish(Step(r, line)), |r.done|)
  {
    hide Opening, Closes, Unindent;
  }

  lemma {:induction false} ReadExtends(lines: seq<string>, r: Reader)
    ensures r.done <= Read(lines, r).done
    ensures Extends(Finish(r), Finish(Read(lines, r)), |r.done|)
  {
    hide Step;
    if lines != [] {
      var n := |lines| - 1;
      var m := Read(lines[..n], r);
      ReadExtends(lines[..n], r);
      StepExtends(m, lines[n]);
      ExtendsTransitive(Finish(r), Finish(m), Finish(Step(m, lines[n])), |r.done|, |m.done|);
    }
  }

  lemma ExtendsTransitive(a: seq<Block>, b: seq<Block>, c: seq<Block>, i: nat, j: nat)
    requires Extends(a, b, i) && Extends(b, c, j) && i <= j
    ensures Extends(a, c, i)
  {
    forall k | 0 <= k < i
      ensures a[k] == c[k]
    {
      assert a[..i][k] == b[..i][k] && b[..j][k] == c[..j][k];
    }
    forall k | i <= k < |a|
      ensures a[k].content <= c[k].content
    {
      if k < j {
        assert b[..j][k] == c[..j][k];
      }
    }
    assert a[..i] == c[..i];
  }

  predicate AllPlain(lines: seq<string>) {
    forall i :: 0 <= i < |lines| ==> Opening(lines[i]) == None
  }

  lemma {:induction false} PlainLinesChangeNothing(lines: seq<string>, r: Reader)
    requires AllPlain(lines) && r.open == None
    ensures Read(lines, r) == r
  {
    hide Opening, Closes;
    if lines != [] {
      PlainLinesChangeNothing(lines[..|lines| - 1], r);
    }
  }

  /** A line that opens a fence leaves one more block than before. */
  lemma {:induction false} OpeningLineCounts(lines: seq<string>, r: Reader)
    requires !AllPlain(lines)
    ensures |Finish(Read(lines, r))| > |r.done|
  {
    hide Opening, Closes, Unindent;
    var n := |lines| - 1;
    if AllPlain(lines[..n]) {
      ReadExtends(lines[..n], r);
      assert Opening(lines[n]) != None;
    } else {
      OpeningLineCounts(lines[..n], r);
      StepExtends(Read(lines[..n], r), lines[n]);
    }
  }

  lemma {:induction false} OpenFenceIsLong(lines: seq<string>)
    ensures var r := Read(lines, START); r.open.Some? ==> r.open.value.length >= 3
  {
    hide Closes, Unindent, Body;
    if lines != [] {
      OpenFenceIsLong(lines[..|lines| - 1]);
    }
  }
}
