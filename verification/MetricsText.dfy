/** The page that `Metrics::render` writes (crates/ar-gateway/src/metrics.rs) and the reader
of that page in the status command (crates/ar-cli/src/commands.rs).

A page holds the values that the renderer has loaded, in the order `Metrics.Reads()`; they
need not come from one moment. The help texts and the floating-point rendering of the sum
are parameters. */
module MetricsText {
  import opened Text
  import Metrics

  // ----- Names -----

  const TABLE: nat := 33
  const SUM_NAME: nat := 33
  const COUNT_NAME: nat := 34
  const NAMES: nat := 35

  predicate IsNameChar(c: char) {
    'a' <= c <= 'z' || c == '_'
  }

  predicate IsName(s: string) {
    s != "" && forall i :: 0 <= i < |s| ==> IsNameChar(s[i])
  }

  /** Words in lower case, joined by underscores. */
  function Snake(words: string): string {
    seq(|words|, i requires 0 <= i < |words| => Underscored(words[i]))
  }

  /** The words of each counter's name; the buckets share the name of the histogram. */
  function NameOf(k: Metrics.Counter): string {
    match k
    case WebhooksPullRequest => "webhooks pull request total"
    case WebhooksIssueComment => "webhooks issue comment total"
    case WebhooksPing => "webhooks ping total"
    case WebhooksOther => "webhooks other total"
    case WebhookSignatureFailures => "webhook signature failures total"
    case WebhookPayloadFailures => "webhook payload failures total"
    case WebhookRateLimited => "webhook rate limited total"
    case WebhookDuplicates => "webhook duplicates total"
    case JobsDispatched => "jobs dispatched total"
    case ChatCommandsReceived => "chat commands received total"
    case ChatHandlerUnconfigured => "chat handler unconfigured total"
    case ReviewsStarted => "reviews started total"
    case ReviewsSucceeded => "reviews succeeded total"
    case ReviewsFailedForgejo => "reviews failed forgejo total"
    case ReviewsFailedWorkspace => "reviews failed workspace total"
    case ReviewsFailedLlm => "reviews failed llm total"
    case ReviewsFailedUnhealable => "reviews failed unhealable total"
    case ReviewsFailedPanic => "reviews failed panic total"
    case ReviewsFailedUnknown => "reviews failed unknown total"
    case ReviewsSkippedSameSha => "reviews skipped same sha total"
    case ReviewsSkippedTrivial => "reviews skipped trivial total"
    case ReviewsSkippedDisabled => "reviews skipped disabled total"
    case ReviewsSkippedUnknown => "reviews skipped unknown total"
    case ReviewDurationMsSum => "review duration ms sum"
    case ReviewsCompletedCount => "reviews completed count"
    case ReviewFindingsSum => "review findings sum"
    case VerifierFindingsDropped => "verifier findings dropped total"
    case ReviewQueueWaits => "review queue waits total"
    case PollCycles => "poll cycles total"
    case PollHistoryFailures => "poll history failures total"
    case PollPrFailures => "poll pr failures total"
    case PollMentionsDispatched => "poll mentions dispatched total"
    case PollChatFailures => "poll chat failures total"
    case Bucket(_) => "review duration seconds"
  }

  /** The counter table in order, then the two unlabelled samples of the histogram. */
  function Words(i: nat): string {
    if i < |Metrics.Table()| then NameOf(Metrics.Table()[i])
    else if i == SUM_NAME then "review duration seconds sum"
    else "review duration seconds count"
  }

  function Prefixed(words: string): (name: string)
    ensures IsName(name)
  {
    "auto_review_" + Snake(words)
  }

  function Name(i: nat): (name: string)
    ensures IsName(name)
  {
    Prefixed(Words(i))
  }

  /** The name of the duration histogram, whose buckets carry a label. */
  function Histogram(): (name: string)
    ensures IsName(name)
  {
    Prefixed("review duration seconds")
  }

  /** Length, ninth and seventeenth character tell the names apart. */
  function IndexOf(length: nat, c: char, d: char): nat {
    if length == 17 then 28
    else if length == 19 then (if c == '_' then 2 else 25)
    else if length == 20 then 3
    else if length == 21 then (if c == 'p' then 8 else 11)
    else if length == 22 then (if c == 'u' then 23 else 30)
    else if length == 23 then (if c == 's' then 12 else 24)
    else if length == 24 then (if c == 'd' then 7 else if c == 'f' then 15 else if c == 'u' then 27 else 32)
    else if length == 26 then (if c == 'r' then 6 else 17)
    else if length == 27 then (if c == '_' then 0 else if c == 't' then 29 else 33)
    else if length == 28 then
      (if c == '_' && d == 'o' then 1 else if c == 'm' && d == 'c' then 9 else if c == 'f' && d == 'o' then 13 else 18)
    else if length == 29 then (if d == 't' then 20 else if d == 'u' then 22 else 34)
    else if length == 30 then
      (if c == 'p' && d == 'f' then 5 else if c == 'f' && d == 'o' then 14 else if c == 's' && d == 's' then 19
       else if c == 's' && d == 'd' then 21 else 31)
    else if length == 31 then (if c == 'd' then 10 else if c == 'f' then 16 else 26)
    else 4
  }

  function Underscored(c: char): char {
    if 'a' <= c <= 'z' then c else '_'
  }

  predicate Identifies(w: string, i: nat) {
    |w| > 16 && IndexOf(|w|, Underscored(w[8]), Underscored(w[16])) == i
  }

  /** The place of a counter in the table. */
  function Place(k: Metrics.Counter): nat {
    match k
    case WebhooksPullRequest => 0
    case WebhooksIssueComment => 1
    case WebhooksPing => 2
    case WebhooksOther => 3
    case WebhookSignatureFailures => 4
    case WebhookPayloadFailures => 5
    case WebhookRateLimited => 6
    case WebhookDuplicates => 7
    case JobsDispatched => 8
    case ChatCommandsReceived => 9
    case ChatHandlerUnconfigured => 10
    case ReviewsStarted => 11
    case ReviewsSucceeded => 12
    case ReviewsFailedForgejo => 13
    case ReviewsFailedWorkspace => 14
    case ReviewsFailedLlm => 15
    case ReviewsFailedUnhealable => 16
    case ReviewsFailedPanic => 17
    case ReviewsFailedUnknown => 18
    case ReviewsSkippedSameSha => 19
    case ReviewsSkippedTrivial => 20
    case ReviewsSkippedDisabled => 21
    case ReviewsSkippedUnknown => 22
    case ReviewDurationMsSum => 23
    case ReviewsCompletedCount => 24
    case ReviewFindingsSum => 25
    case VerifierFindingsDropped => 26
    case ReviewQueueWaits => 27
    case PollCycles => 28
    case PollHistoryFailures => 29
    case PollPrFailures => 30
    case PollMentionsDispatched => 31
    case PollChatFailures => 32
    case Bucket(i) => TABLE + i
  }

  lemma TablePlaced(i: nat)
    requires i < TABLE
    ensures |Metrics.Table()| == TABLE && Place(Metrics.Table()[i]) == i && !Metrics.Table()[i].Bucket?
  {
    TableSize();
    if i < 17 {
      TablePlaced0(i);
    } else if i < 25 {
      TablePlaced17(i);
    } else {
      TablePlaced25(i);
    }
    hide Metrics.Table, Place;
  }

  lemma TableSize()
    ensures |Metrics.Table()| == TABLE
  {
  }

  lemma TablePlaced0(i: nat)
    requires i < 17 && |Metrics.Table()| == TABLE
    ensures Place(Metrics.Table()[i]) == i && !Metrics.Table()[i].Bucket?
  {
  }

  lemma TablePlaced17(i: nat)
    requires 17 <= i < 25 && |Metrics.Table()| == TABLE
    ensures Place(Metrics.Table()[i]) == i && !Metrics.Table()[i].Bucket?
  {
  }

  lemma TablePlaced25(i: nat)
    requires 25 <= i < TABLE && |Metrics.Table()| == TABLE
    ensures Place(Metrics.Table()[i]) == i && !Metrics.Table()[i].Bucket?
  {
  }

  lemma InTable(k: Metrics.Counter)
    requires !k.Bucket?
    ensures |Metrics.Table()| == TABLE && Place(k) < TABLE && Metrics.Table()[Place(k)] == k
  {
  }

  lemma NameIdentifies0(k: Metrics.Counter)
    requires !k.Bucket? && 0 <= Place(k) < 3
    ensures Identifies(NameOf(k), Place(k))
  {
  }

  lemma NameIdentifies3(k: Metrics.Counter)
    requires !k.Bucket? && 3 <= Place(k) < 6
    ensures Identifies(NameOf(k), Place(k))
  {
  }

  lemma NameIdentifies6(k: Metrics.Counter)
    requires !k.Bucket? && 6 <= Place(k) < 9
    ensures Identifies(NameOf(k), Place(k))
  {
  }

  lemma NameIdentifies9(k: Metrics.Counter)
    requires !k.Bucket? && 9 <= Place(k) < 12
    ensures Identifies(NameOf(k), Place(k))
  {
  }

  lemma NameIdentifies12(k: Metrics.Counter)
    requires !k.Bucket? && 12 <= Place(k) < 18
    ensures Identifies(NameOf(k), Place(k))
  {
  }

  lemma NameIdentifies18(k: Metrics.Counter)
    requires !k.Bucket? && 18 <= Place(k) < 23
    ensures Identifies(NameOf(k), Place(k))
  {
  }

  lemma NameIdentifies23(k: Metrics.Counter)
    requires !k.Bucket? && 23 <= Place(k) < 28
    ensures Identifies(NameOf(k), Place(k))
  {
  }

  lemma NameIdentifies28(k: Metrics.Counter)
    requires !k.Bucket? && 28 <= Place(k) < 33
    ensures Identifies(NameOf(k), Place(k))
  {
  }

  lemma HistogramIdentifies()
    ensures Identifies("review duration seconds sum", SUM_NAME)
    ensures Identifies("review duration seconds count", COUNT_NAME)
  {
  }

  lemma WordsIdentify(i: nat)
    requires i < NAMES
    ensures Identifies(Words(i), i)
  {
    hide Identifies, NameOf, Place, Metrics.Table;
    TableSize();
    if i >= TABLE {
      HistogramIdentifies();
    } else {
      TablePlaced(i);
      var k := Metrics.Table()[i];
      if i < 3 {
        NameIdentifies0(k);
      } else if i < 6 {
        NameIdentifies3(k);
      } else if i < 9 {
        NameIdentifies6(k);
      } else if i < 12 {
        NameIdentifies9(k);
      } else if i < 18 {
        NameIdentifies12(k);
      } else if i < 23 {
        NameIdentifies18(k);
      } else if i < 28 {
        NameIdentifies23(k);
      } else {
        NameIdentifies28(k);
      }
    }
  }

  lemma NamesAreDistinct(i: nat, j: nat)
    requires i < NAMES && j < NAMES && Name(i) == Name(j)
    ensures i == j
  {
    hide Words, IndexOf;
    WordsIdentify(i);
    WordsIdentify(j);
    var p, u, v := "auto_review_", Snake(Words(i)), Snake(Words(j));
    assert Name(i)[|p|..] == u && Name(j)[|p|..] == v;
    assert u[8] == Underscored(Words(i)[8]) && u[16] == Underscored(Words(i)[16]);
  }

  // ----- The page -----

  predicate OneLine(s: string) {
    forall i :: 0 <= i < |s| ==> s[i] != '\n' && s[i] != '\r'
  }

  function Comment(text: string): string {
    "# " + text
  }

  function Sample(name: string, value: string): string {
    name + " " + value
  }

  function MetricLines(name: string, help: string, value: nat): seq<string> {
    [Comment("HELP " + name + " " + help), Comment("TYPE " + name + " counter"), Sample(name, Decimal(value))]
  }

  function BucketLine(bound: string, count: nat): string {
    (Histogram() + "_bucket") + "{" + ("le=\"" + bound + "\"} ") + Decimal(count)
  }

  /** The lines of the first `n` counters of the table. */
  function TableLines(helps: seq<string>, values: seq<nat>, n: nat): seq<string>
    requires n <= |helps| && n <= |values|
  {
    if n == 0 then [] else TableLines(helps, values, n - 1) + MetricLines(Name(n - 1), helps[n - 1], values[n - 1])
  }

  /** `fmt_bucket_bound`: all bounds are whole seconds. */
  function BoundText(i: nat): string {
    Decimal(Metrics.BoundMs(i) / 1000)
  }

  function BucketLines(counts: seq<nat>): seq<string> {
    seq(|counts|, i requires 0 <= i < |counts| => BucketLine(BoundText(i), counts[i]))
  }

  function HistogramHead(help: string): seq<string> {
    [Comment("HELP " + Histogram() + " " + help),
     Comment("TYPE " + Histogram() + " histogram")]
  }

  function HistogramLines(help: string, counts: seq<nat>, total: nat, sum: string): seq<string> {
    HistogramHead(help) + BucketLines(counts)
    + [BucketLine("+Inf", total), Sample(Name(SUM_NAME), sum), Sample(Name(COUNT_NAME), Decimal(total))]
  }

  const BUCKET_END: nat := TABLE + Metrics.BUCKETS
  const PAGE: nat := BUCKET_END + 2

  predicate IsPage(helps: seq<string>, values: seq<nat>) {
    |helps| == TABLE + 1 && |values| == PAGE
  }

  /** `values` as in `Metrics.Reads()`: the table, the buckets, the completed count, the sum. */
  function PageLines(helps: seq<string>, values: seq<nat>, sum: string): seq<string>
    requires IsPage(helps, values)
  {
    TableLines(helps, values, TABLE) + HistogramLines(helps[TABLE], values[TABLE..BUCKET_END], values[BUCKET_END], sum)
  }

  function Unlines(lines: seq<string>): string {
    if lines == [] then "" else Unlines(lines[..|lines| - 1]) + lines[|lines| - 1] + "\n"
  }

  lemma UnlinesSnoc(lines: seq<string>, line: string)
    ensures Unlines(lines + [line]) == Unlines(lines) + line + "\n"
  {
    assert (lines + [line])[..|lines|] == lines;
  }

  /** The values of a scrape that nothing interrupts. */
  function ReadAll(counters: Metrics.Counters): (values: seq<nat>)
    ensures |values| == |Metrics.Reads()|
  {
    seq(|Metrics.Reads()|, i requires 0 <= i < |Metrics.Reads()| => Metrics.Get(counters, Metrics.Reads()[i]))
  }

  lemma PageLayout(counters: Metrics.Counters)
    ensures |Metrics.Table()| == TABLE && |ReadAll(counters)| == PAGE
    ensures forall i :: 0 <= i < TABLE ==> ReadAll(counters)[i] == Metrics.Get(counters, Metrics.Table()[i])
    ensures forall i :: 0 <= i < Metrics.BUCKETS ==>
                          ReadAll(counters)[TABLE..BUCKET_END][i] == Metrics.Get(counters, Metrics.Bucket(i))
    ensures ReadAll(counters)[BUCKET_END] == Metrics.Get(counters, Metrics.ReviewsCompletedCount)
    ensures ReadAll(counters)[PAGE - 1] == Metrics.Get(counters, Metrics.ReviewDurationMsSum)
  {
    Metrics.ReadsAre();
    hide Metrics.Table, Metrics.Get;
    forall i | 0 <= i < Metrics.BUCKETS
      ensures ReadAll(counters)[TABLE..BUCKET_END][i] == Metrics.Get(counters, Metrics.Bucket(i))
    {
      assert Metrics.Reads()[Metrics.BucketRead(i)] == Metrics.Bucket(i);
    }
  }

  lemma {:induction false} UnlinesConcat(a: seq<string>, b: seq<string>)
    ensures Unlines(a + b) == Unlines(a) + Unlines(b)
  {
    hide Unlines;
    if b == [] {
      assert a + b == a;
      NoLines();
    } else {
      var n := |b| - 1;
      UnlinesConcat(a, b[..n]);
      UnlinesSnoc(a + b[..n], b[n]);
      UnlinesSnoc(b[..n], b[n]);
      assert a + b == a + b[..n] + [b[n]] && b == b[..n] + [b[n]];
      assert Unlines(a) + Unlines(b[..n]) + b[n] + "\n" == Unlines(a) + (Unlines(b[..n]) + b[n] + "\n");
    }
  }

  lemma NoLines()
    ensures Unlines([]) == ""
  {
  }

  method Render(m: Metrics.Metrics, helps: seq<string>, seconds: nat -> string) returns (out: string)
    requires |helps| == TABLE + 1
    ensures var values := ReadAll(m.counters);
            IsPage(helps, values) && out == Unlines(PageLines(helps, values, seconds(values[PAGE - 1])))
  {
    hide Name, Metrics.Table, Metrics.Reads, Comment, Sample, Decimal, Metrics.Get;
    ghost var values := ReadAll(m.counters);
    PageLayout(m.counters);
    out := "";
    for i := 0 to TABLE
      invariant out == Unlines(TableLines(helps, values, i))
    {
      var name, value := Name(i), Metrics.Get(m.counters, Metrics.Table()[i]);
      MetricLinesWritten(name, helps[i], value);
      UnlinesConcat(TableLines(helps, values, i), MetricLines(name, helps[i], value));
      out := out + (Comment("HELP " + name + " " + helps[i]) + "\n" + Comment("TYPE " + name + " counter") + "\n"
                    + Sample(name, Decimal(value)) + "\n");
      assert TableLines(helps, values, i + 1) == TableLines(helps, values, i) + MetricLines(name, helps[i], value);
    }
    var histogram := RenderDurationHistogram(m, helps[TABLE], seconds);
    UnlinesConcat(TableLines(helps, values, TABLE),
                  HistogramLines(helps[TABLE], values[TABLE..BUCKET_END], values[BUCKET_END],
                                 seconds(values[PAGE - 1])));
    out := out + histogram;
  }

  lemma UnlinesOfOne(a: string)
    ensures Unlines([a]) == a + "\n"
  {
    assert [a][..0] == [];
  }

  lemma UnlinesOfThree(a: string, b: string, c: string)
    ensures Unlines([a, b]) == a + "\n" + b + "\n"
    ensures Unlines([a, b, c]) == a + "\n" + b + "\n" + c + "\n"
  {
    hide Unlines;
    UnlinesOfOne(a);
    UnlinesSnoc([a], b);
    UnlinesSnoc([a, b], c);
    assert [a] + [b] == [a, b] && [a, b] + [c] == [a, b, c];
  }

  lemma MetricLinesWritten(name: string, help: string, value: nat)
    ensures var lines := MetricLines(name, help, value);
            |lines| == 3
            && Unlines(lines) == lines[0] + "\n" + lines[1] + "\n" + lines[2] + "\n"
  {
    hide Comment, Sample, Decimal, Unlines;
    var lines := MetricLines(name, help, value);
    UnlinesOfThree(lines[0], lines[1], lines[2]);
  }

  method RenderDurationHistogram(m: Metrics.Metrics, help: string, seconds: nat -> string) returns (out: string)
    ensures var values := ReadAll(m.counters);
            && |values| == PAGE
            && out == Unlines(HistogramLines(help, values[TABLE..BUCKET_END], values[BUCKET_END],
                                             seconds(values[PAGE - 1])))
  {
    hide Name, Metrics.Reads, BucketLine, BoundText, Comment, HistogramHead, Sample, Decimal, Metrics.Get;
    PageLayout(m.counters);
    ghost var counts := ReadAll(m.counters)[TABLE..BUCKET_END];
    ghost var lines := HistogramHead(help);
    HistogramHeadWritten(help);
    out := HistogramHead(help)[0] + "\n" + HistogramHead(help)[1] + "\n";
    for i := 0 to Metrics.BUCKETS
      invariant out == Unlines(lines) && lines == HistogramHead(help) + BucketLines(counts[..i])
    {
      var count := Metrics.Get(m.counters, Metrics.Bucket(i));
      assert counts[i] == count && counts[..i + 1] == counts[..i] + [counts[i]];
      assert BucketLines(counts[..i + 1]) == BucketLines(counts[..i]) + [BucketLine(BoundText(i), counts[i])];
      UnlinesSnoc(lines, BucketLine(BoundText(i), count));
      out := out + BucketLine(BoundText(i), count) + "\n";
      lines := lines + [BucketLine(BoundText(i), count)];
    }
    assert counts[..Metrics.BUCKETS] == counts;
    var total := Metrics.Get(m.counters, Metrics.ReviewsCompletedCount);
    var sum := Metrics.Get(m.counters, Metrics.ReviewDurationMsSum);
    UnlinesSnoc(lines, BucketLine("+Inf", total));
    UnlinesSnoc(lines + [BucketLine("+Inf", total)], Sample(Name(SUM_NAME), seconds(sum)));
    UnlinesSnoc(lines + [BucketLine("+Inf", total)] + [Sample(Name(SUM_NAME), seconds(sum))],
                Sample(Name(COUNT_NAME), Decimal(total)));
    out := out + BucketLine("+Inf", total) + "\n";
    out := out + Sample(Name(SUM_NAME), seconds(sum)) + "\n";
    out := out + Sample(Name(COUNT_NAME), Decimal(total)) + "\n";
    assert lines + [BucketLine("+Inf", total)] + [Sample(Name(SUM_NAME), seconds(sum))]
           + [Sample(Name(COUNT_NAME), Decimal(total))]
           == HistogramLines(help, counts, total, seconds(sum));
  }

  lemma HistogramHeadWritten(help: string)
    ensures |HistogramHead(help)| == 2
    ensures Unlines(HistogramHead(help)) == HistogramHead(help)[0] + "\n" + HistogramHead(help)[1] + "\n"
  {
    hide Comment, Unlines;
    var head := HistogramHead(help);
    UnlinesOfThree(head[0], head[1], "");
  }

  // ----- The reader -----

  /** What `parse_metric_counters` takes from one line. */
  function ParseLine(line: string): Option<(string, nat)> {
    var t := Trim(line);
    if t == "" || t[0] == '#' || '{' in t then None
    else
      var name := FirstWord(t);
      var value := FirstWord(TrimStart(t[|name|..]));
      if value == "" then None
      else
        match ParseU64(value)
        case Some(v) => Some((name, v))
        case None => None
  }

  /** The samples of the lines; a later line wins. */
  function Collect(lines: seq<string>): map<string, nat> {
    if lines == [] then map[]
    else
      var before := Collect(lines[..|lines| - 1]);
      match ParseLine(lines[|lines| - 1])
      case Some((name, v)) => before[name := v]
      case None => before
  }

  method ParseMetricCounters(text: string) returns (out: map<string, nat>)
    ensures out == Collect(Lines(text))
  {
    hide Lines, Trim, TrimStart, FirstWord, ParseU64;
    var lines := Lines(text);
    out := map[];
    for i := 0 to |lines|
      invariant out == Collect(lines[..i])
    {
      assert lines[..i + 1][..i] == lines[..i];
      var line := Trim(lines[i]);
      if line == "" || line[0] == '#' || '{' in line {
        continue;
      }
      var name := FirstWord(line);
      var value := FirstWord(TrimStart(line[|name|..]));
      if value == "" {
        continue;
      }
      match ParseU64(value)
      case Some(v) => out := out[name := v];
      case None =>
    }
    assert lines[..|lines|] == lines;
  }

  // ----- Reading one written line -----

  lemma NameIsWord(name: string)
    requires IsName(name)
    ensures IsWord(name) && '{' !in name && name[0] != '#' && OneLine(name)
  {
  }

  lemma CommentIsSkipped(text: string)
    ensures ParseLine(Comment(text)) == None
  {
    assert !IsWhitespace('#');
    hide IsWhitespace, Trim;
    TrimKeepsFirst(Comment(text));
  }

  lemma DecimalIsWord(n: nat)
    ensures IsWord(Decimal(n)) && '{' !in Decimal(n) && OneLine(Decimal(n))
  {
    hide Decimal;
    forall i | 0 <= i < |Decimal(n)|
      ensures !IsWhitespace(Decimal(n)[i]) && Decimal(n)[i] != '{' && Decimal(n)[i] != '\n' && Decimal(n)[i] != '\r'
    {
      assert IsDigit(Decimal(n)[i]);
    }
  }

  lemma BucketLineIsSkipped(bound: string, count: nat)
    ensures ParseLine(BucketLine(bound, count)) == None
  {
    assert !IsWhitespace('a');
    hide IsWhitespace, Trim, Decimal;
    DecimalIsWord(count);
    var line := BucketLine(bound, count);
    assert line[0] == 'a' && line[|line| - 1] == Decimal(count)[|Decimal(count)| - 1];
    assert line[|Histogram() + "_bucket"|] == '{';
    TrimOfTrimmed(line);
  }

  lemma ValueOfSample(value: string)
    requires IsWord(value) && value != ""
    ensures FirstWord(TrimStart(" " + value)) == value
  {
    assert IsWhitespace(' ');
    hide IsWhitespace, FirstWord;
    assert (" " + value)[1..] == value;
    assert TrimStart(value) == value;
    FirstWordWhole(value);
  }

  lemma SampleIsTrimmed(name: string, value: string)
    requires IsName(name) && IsWord(value) && value != "" && '{' !in value
    ensures var line := Sample(name, value);
            Trim(line) == line && line != "" && line[0] != '#' && '{' !in line
  {
    NameIsWord(name);
    hide IsWhitespace, Trim, IsName;
    var line := Sample(name, value);
    assert line[0] == name[0] && line[|line| - 1] == value[|value| - 1];
    TrimOfTrimmed(line);
  }

  lemma SampleIsRead(name: string, value: string)
    requires IsName(name)
    requires IsWord(value) && value != "" && '{' !in value
    ensures ParseLine(Sample(name, value)) == match ParseU64(value) case Some(v) => Some((name, v)) case None => None
  {
    assert IsWhitespace(' ');
    NameIsWord(name);
    hide IsWhitespace, Trim, TrimStart, IsName, ParseU64, FirstWord, IsWord;
    var line := Sample(name, value);
    SampleIsTrimmed(name, value);
    assert line == name + (" " + value);
    FirstWordOf(name, " " + value);
    assert line[|name|..] == " " + value;
    ValueOfSample(value);
  }

  // ----- Reading a whole page back -----

  predicate AllOneLine(lines: seq<string>) {
    forall i :: 0 <= i < |lines| ==> OneLine(lines[i])
  }

  lemma {:induction false} LinesOfUnlines(lines: seq<string>)
    requires AllOneLine(lines)
    ensures Lines(Unlines(lines)) == lines
  {
    if lines != [] {
      var line, rest := lines[0], lines[1..];
      assert lines == [line] + rest;
      UnlinesConcat([line], rest);
      UnlinesOfOne(line);
      hide Lines, Unlines;
      assert OneLine(line) && '\n' !in line && StripCr(line) == line;
      LinesOfUnlines(rest);
      LinesOfConcat(line, Unlines(rest));
    }
  }

  lemma CollectSnoc(lines: seq<string>, line: string)
    ensures Collect(lines + [line]) == match ParseLine(line)
                                       case Some((name, v)) => Collect(lines)[name := v]
                                       case None => Collect(lines)
  {
    hide ParseLine;
    assert (lines + [line])[..|lines|] == lines;
  }

  lemma {:induction false} CollectSkips(lines: seq<string>, skipped: seq<string>)
    requires forall i :: 0 <= i < |skipped| ==> ParseLine(skipped[i]) == None
    ensures Collect(lines + skipped) == Collect(lines)
  {
    hide ParseLine, Collect;
    if skipped == [] {
      assert lines + skipped == lines;
    } else {
      var n := |skipped| - 1;
      CollectSkips(lines, skipped[..n]);
      CollectSnoc(lines + skipped[..n], skipped[n]);
      assert lines + skipped == lines + skipped[..n] + [skipped[n]];
    }
  }

  lemma CollectMetric(lines: seq<string>, name: string, help: string, value: nat)
    requires IsName(name) && value < U64_LIMIT
    ensures Collect(lines + MetricLines(name, help, value)) == Collect(lines)[name := value]
  {
    hide ParseLine, Collect, Comment, Sample, IsName, Decimal, ParseU64, IsWord;
    var m := MetricLines(name, help, value);
    CommentIsSkipped("HELP " + name + " " + help);
    CommentIsSkipped("TYPE " + name + " counter");
    CollectSkips(lines, [m[0], m[1]]);
    DecimalIsWord(value);
    SampleIsRead(name, Decimal(value));
    ParseU64ReadsBack(value);
    CollectSnoc(lines + [m[0], m[1]], m[2]);
    assert lines + m == lines + [m[0], m[1]] + [m[2]];
  }

  /** The map holds the first `n` counters of the table and nothing else. */
  ghost predicate HoldsTable(m: map<string, nat>, values: seq<nat>, n: nat)
    requires n <= |values|
  {
    && (forall name :: name in m <==> exists i: nat :: i < n && Name(i) == name)
    && forall i :: 0 <= i < n ==> Name(i) in m && m[Name(i)] == values[i]
  }

  predicate AreU64(values: seq<nat>) {
    forall i :: 0 <= i < |values| ==> values[i] < U64_LIMIT
  }

  lemma {:induction false} TableIsRead(helps: seq<string>, values: seq<nat>, n: nat)
    requires n <= |helps| && n <= |values| && n <= TABLE && AreU64(values)
    ensures HoldsTable(Collect(TableLines(helps, values, n)), values, n)
  {
    hide Name, MetricLines, ParseLine;
    if n > 0 {
      TableIsRead(helps, values, n - 1);
      CollectMetric(TableLines(helps, values, n - 1), Name(n - 1), helps[n - 1], values[n - 1]);
      forall i: nat | i < n - 1
        ensures Name(i) != Name(n - 1)
      {
        if Name(i) == Name(n - 1) {
          NamesAreDistinct(i, n - 1);
        }
      }
    }
  }

  lemma HistogramIsRead(lines: seq<string>, help: string, counts: seq<nat>, total: nat, sum: string)
    requires total < U64_LIMIT && IsToken(sum)
    ensures var before := Collect(lines);
            var withSum := if ParseU64(sum).Some? then before[Name(SUM_NAME) := ParseU64(sum).value] else before;
            Collect(lines + HistogramLines(help, counts, total, sum)) == withSum[Name(COUNT_NAME) := total]
  {
    hide ParseLine, Collect, Comment, Sample, BucketLine, IsName, Decimal, ParseU64, IsWord, Name, BoundText;
    var skipped := HistogramHead(help) + BucketLines(counts) + [BucketLine("+Inf", total)];
    forall i | 0 <= i < |skipped|
      ensures ParseLine(skipped[i]) == None
    {
      if i < 2 {
        HeadIsSkipped(help, i);
      } else if i < 2 + |counts| {
        BucketLineIsSkipped(BoundText(i - 2), counts[i - 2]);
      } else {
        BucketLineIsSkipped("+Inf", total);
      }
    }
    CollectSkips(lines, skipped);
    var sumLine, countLine := Sample(Name(SUM_NAME), sum), Sample(Name(COUNT_NAME), Decimal(total));
    SampleIsRead(Name(SUM_NAME), sum);
    CollectSnoc(lines + skipped, sumLine);
    DecimalIsWord(total);
    ParseU64ReadsBack(total);
    SampleIsRead(Name(COUNT_NAME), Decimal(total));
    CollectSnoc(lines + skipped + [sumLine], countLine);
    assert lines + HistogramLines(help, counts, total, sum) == lines + skipped + [sumLine] + [countLine];
  }

  lemma HeadIsSkipped(help: string, i: nat)
    requires i < 2
    ensures |HistogramHead(help)| == 2 && ParseLine(HistogramHead(help)[i]) == None
  {
    hide ParseLine, Comment;
    CommentIsSkipped("HELP " + Histogram() + " " + help);
    CommentIsSkipped("TYPE " + Histogram() + " histogram");
  }

  /** What the rendering of the sum, a floating-point number, is taken to look like. */
  predicate IsToken(s: string) {
    IsWord(s) && s != "" && '{' !in s
  }

  lemma OneLineConcat(a: string, b: string)
    requires OneLine(a) && OneLine(b)
    ensures OneLine(a + b)
  {
  }

  lemma MetricIsOneLine(name: string, help: string, value: nat)
    requires IsName(name) && OneLine(help)
    ensures AllOneLine(MetricLines(name, help, value))
  {
    assert OneLine("# ") && OneLine("HELP ") && OneLine("TYPE ") && OneLine(" ") && OneLine(" counter");
    NameIsWord(name);
    DecimalIsWord(value);
    hide OneLine, Decimal, IsName, IsWord;
    OneLineConcat("HELP ", name);
    OneLineConcat("HELP " + name, " ");
    OneLineConcat("HELP " + name + " ", help);
    OneLineConcat("# ", "HELP " + name + " " + help);
    OneLineConcat("TYPE ", name);
    OneLineConcat("TYPE " + name, " counter");
    OneLineConcat("# ", "TYPE " + name + " counter");
    OneLineConcat(name, " ");
    OneLineConcat(name + " ", Decimal(value));
  }

  lemma {:induction false} TableIsOneLine(helps: seq<string>, values: seq<nat>, n: nat)
    requires n <= |helps| && n <= |values| && AllOneLine(helps)
    ensures AllOneLine(TableLines(helps, values, n))
  {
    hide Name, MetricLines, OneLine;
    if n > 0 {
      TableIsOneLine(helps, values, n - 1);
      MetricIsOneLine(Name(n - 1), helps[n - 1], values[n - 1]);
    }
  }

  lemma BucketLineIsOneLine(bound: string, count: nat)
    requires OneLine(bound)
    ensures OneLine(BucketLine(bound, count))
  {
    assert OneLine("_bucket") && OneLine("{") && OneLine("le=\"") && OneLine("\"} ");
    NameIsWord(Histogram());
    DecimalIsWord(count);
    hide OneLine, Decimal, IsName, IsWord, Histogram;
    OneLineConcat(Histogram(), "_bucket");
    OneLineConcat(Histogram() + "_bucket", "{");
    OneLineConcat("le=\"", bound);
    OneLineConcat("le=\"" + bound, "\"} ");
    OneLineConcat(Histogram() + "_bucket" + "{", "le=\"" + bound + "\"} ");
    OneLineConcat(Histogram() + "_bucket" + "{" + ("le=\"" + bound + "\"} "), Decimal(count));
  }

  lemma SampleIsOneLine(name: string, value: string)
    requires IsName(name) && IsWord(value)
    ensures OneLine(Sample(name, value))
  {
    NameIsWord(name);
    assert IsWhitespace('\n') && IsWhitespace('\r');
    hide IsWhitespace, IsName;
  }

  lemma HeadIsOneLine(help: string)
    requires OneLine(help)
    ensures AllOneLine(HistogramHead(help))
  {
    assert OneLine("# ") && OneLine("HELP ") && OneLine("TYPE ") && OneLine(" ") && OneLine(" histogram");
    NameIsWord(Histogram());
    hide OneLine, IsName, IsWord, Histogram;
    OneLineConcat("HELP ", Histogram());
    OneLineConcat("HELP " + Histogram(), " ");
    OneLineConcat("HELP " + Histogram() + " ", help);
    OneLineConcat("# ", "HELP " + Histogram() + " " + help);
    OneLineConcat("TYPE ", Histogram());
    OneLineConcat("TYPE " + Histogram(), " histogram");
    OneLineConcat("# ", "TYPE " + Histogram() + " histogram");
  }

  lemma HistogramIsOneLine(help: string, counts: seq<nat>, total: nat, sum: string)
    requires OneLine(help) && IsToken(sum)
    ensures AllOneLine(HistogramLines(help, counts, total, sum))
  {
    assert OneLine("+Inf");
    hide OneLine, Comment, Sample, BucketLine, Decimal, Name, IsName, IsWord, HistogramHead;
    HeadIsOneLine(help);
    forall i | 0 <= i < |counts|
      ensures OneLine(BucketLines(counts)[i])
    {
      DecimalIsWord(Metrics.BoundMs(i) / 1000);
      BucketLineIsOneLine(BoundText(i), counts[i]);
    }
    BucketLineIsOneLine("+Inf", total);
    SampleIsOneLine(Name(SUM_NAME), sum);
    DecimalIsWord(total);
    SampleIsOneLine(Name(COUNT_NAME), Decimal(total));
  }

  function StatusReads(page: string): map<string, nat> {
    Collect(Lines(page))
  }

  /** The status command reads from any page exactly the counter table, the sample count and,
      when it happens to be a whole number, the sum; comments and bucket lines give nothing. */
  lemma PageReadsBack(helps: seq<string>, values: seq<nat>, sum: string)
    requires IsPage(helps, values) && AllOneLine(helps) && AreU64(values) && IsToken(sum)
    ensures var m := StatusReads(Unlines(PageLines(helps, values, sum)));
            && (forall i :: 0 <= i < TABLE ==> Name(i) in m && m[Name(i)] == values[i])
            && Name(COUNT_NAME) in m && m[Name(COUNT_NAME)] == values[BUCKET_END]
            && (Name(SUM_NAME) in m <==> ParseU64(sum).Some?)
            && (ParseU64(sum).Some? ==> m[Name(SUM_NAME)] == ParseU64(sum).value)
            && (forall name :: name in m ==> exists i: nat :: i < NAMES && Name(i) == name)
  {
    hide Lines, Unlines, Collect, Name, ParseU64, OneLine, TableLines, HistogramLines, IsToken;
    var table := TableLines(helps, values, TABLE);
    var counts, total := values[TABLE..BUCKET_END], values[BUCKET_END];
    TableIsOneLine(helps, values, TABLE);
    HistogramIsOneLine(helps[TABLE], counts, total, sum);
    LinesOfUnlines(PageLines(helps, values, sum));
    TableIsRead(helps, values, TABLE);
    HistogramIsRead(table, helps[TABLE], counts, total, sum);
    forall i: nat, j: nat | i < j < NAMES
      ensures Name(i) != Name(j)
    {
      if Name(i) == Name(j) {
        NamesAreDistinct(i, j);
      }
    }
  }

  /** A page scraped while reviews are being recorded never makes the status command see more
      completed reviews than observations in the histogram. */
  lemma ScrapedStatusIsConsistent(steps: seq<Metrics.Step>, helps: seq<string>, sum: string)
    requires |Metrics.Run(steps).recorders| < U64_LIMIT
    requires |Metrics.Run(steps).page| == |Metrics.Reads()| && |helps| == TABLE + 1
    requires AllOneLine(helps) && IsToken(sum)
    ensures |Metrics.Reads()| == PAGE
    ensures var m := StatusReads(Unlines(PageLines(helps, Metrics.Run(steps).page, sum)));
            && Name(Metrics.COMPLETED_READ) in m && Name(COUNT_NAME) in m
            && m[Name(Metrics.COMPLETED_READ)] <= m[Name(COUNT_NAME)]
  {
    hide Metrics.Run, Metrics.Reads, Metrics.Table, Name, PageLines, Unlines, StatusReads, IsToken;
    Metrics.ReadsAre();
    Metrics.PageIsU64(steps);
    Metrics.ScrapedBucketsBelowInf(steps, 0);
    PageReadsBack(helps, Metrics.Run(steps).page, sum);
  }

  /** For every state of the counters, what the status command reads from the rendered page is
      each counter of the table by its name, and the number of completed reviews. */
  lemma RenderedCountersReadBack(counters: Metrics.Counters, helps: seq<string>, seconds: nat -> string)
    requires forall k :: Metrics.Get(counters, k) < U64_LIMIT
    requires |helps| == TABLE + 1 && AllOneLine(helps)
    requires IsToken(seconds(Metrics.Get(counters, Metrics.ReviewDurationMsSum)))
    ensures |ReadAll(counters)| == PAGE && |Metrics.Table()| == TABLE
    ensures var values := ReadAll(counters);
            var m := StatusReads(Unlines(PageLines(helps, values, seconds(values[PAGE - 1]))));
            && (forall i :: 0 <= i < TABLE ==>
                              Name(i) in m && m[Name(i)] == Metrics.Get(counters, Metrics.Table()[i]))
            && Name(COUNT_NAME) in m
            && m[Name(COUNT_NAME)] == Metrics.Get(counters, Metrics.ReviewsCompletedCount)
  {
    hide Metrics.Reads, Metrics.Table, Metrics.Get, Name, PageLines, Unlines, StatusReads, IsToken;
    PageLayout(counters);
    var values := ReadAll(counters);
    PageReadsBack(helps, values, seconds(values[PAGE - 1]));
  }

  // ----- Counters by name -----

  /** A name in full: the prefix, and the words with underscores for the blanks. */
  lemma PrefixedSpells(words: string, i: nat)
    requires i < |words| && ('a' <= words[i] <= 'z' || words[i] == ' ')
    ensures "auto_review_" <= Prefixed(words) && |Prefixed(words)| == 12 + |words|
    ensures Prefixed(words)[12 + i] == if words[i] == ' ' then '_' else words[i]
  {
  }

  /** The value that a page gives for a name. */
  predicate Shows(m: map<string, nat>, words: string, value: nat) {
    Prefixed(words) in m && m[Prefixed(words)] == value
  }

  /** Each counter stands on the page under its own name. */
  ghost predicate ShowsCounters(m: map<string, nat>, c: Metrics.Counters) {
    && (forall k: Metrics.Counter :: !k.Bucket? ==> Shows(m, NameOf(k), Metrics.Get(c, k)))
    && Shows(m, "review duration seconds count", Metrics.Get(c, Metrics.ReviewsCompletedCount))
  }

  /** What the status command reads from the rendered page is each counter under its own name. */
  lemma RenderedCountersByName(counters: Metrics.Counters, helps: seq<string>, seconds: nat -> string)
    requires forall k :: Metrics.Get(counters, k) < U64_LIMIT
    requires |helps| == TABLE + 1 && AllOneLine(helps)
    requires IsToken(seconds(Metrics.Get(counters, Metrics.ReviewDurationMsSum)))
    ensures var values := ReadAll(counters);
            && |values| == PAGE
            && ShowsCounters(StatusReads(Unlines(PageLines(helps, values, seconds(values[PAGE - 1])))), counters)
  {
    hide StatusReads, Unlines, PageLines, ReadAll, Metrics.Table, Metrics.Get, IsToken, AllOneLine, Prefixed;
    hide Words, NameOf, Shows;
    RenderedCountersReadBack(counters, helps, seconds);
    var values := ReadAll(counters);
    var m := StatusReads(Unlines(PageLines(helps, values, seconds(values[PAGE - 1]))));
    forall k: Metrics.Counter | !k.Bucket?
      ensures Shows(m, NameOf(k), Metrics.Get(counters, k))
    {
      ShownByPlace(m, counters, k);
    }
    CountIsShown(m, Metrics.Get(counters, Metrics.ReviewsCompletedCount));
  }

  lemma ShownByPlace(m: map<string, nat>, c: Metrics.Counters, k: Metrics.Counter)
    requires |Metrics.Table()| == TABLE && !k.Bucket?
    requires forall i :: 0 <= i < TABLE ==> Name(i) in m && m[Name(i)] == Metrics.Get(c, Metrics.Table()[i])
    ensures Shows(m, NameOf(k), Metrics.Get(c, k))
  {
    hide Metrics.Table, NameOf, Prefixed, Metrics.Get;
    InTable(k);
    assert Name(Place(k)) == Prefixed(NameOf(k));
  }

  lemma CountIsShown(m: map<string, nat>, value: nat)
    requires Name(COUNT_NAME) in m && m[Name(COUNT_NAME)] == value
    ensures Shows(m, "review duration seconds count", value)
  {
    hide Prefixed, NameOf;
    TableSize();
  }

  /** The labels of the buckets are their bounds in seconds. */
  lemma BucketLabels(i: nat)
    requires i < Metrics.BUCKETS
    ensures BoundText(i) == ["1", "5", "15", "30", "60", "120", "300", "600"][i]
  {
    hide Decimal;
    Metrics.BoundsAre(i);
    SmallDecimals();
    BiggerDecimals();
  }

  lemma SmallDecimals()
    ensures Decimal(1) == "1" && Decimal(5) == "5" && Decimal(15) == "15" && Decimal(30) == "30" && Decimal(60) == "60"
  {
  }

  lemma BiggerDecimals()
    ensures Decimal(120) == "120" && Decimal(300) == "300" && Decimal(600) == "600"
  {
  }

  lemma BucketLineSpells(bound: string, count: nat)
    ensures BucketLine(bound, count)
            == Prefixed("review duration seconds bucket") + "{le=\"" + bound + "\"} " + Decimal(count)
  {
    hide Decimal;
    assert "review duration seconds" + " bucket" == "review duration seconds bucket";
    PrefixedConcat("review duration seconds", " bucket");
    assert Snake(" bucket") == "_bucket";
    hide Prefixed;
    assert "{" + ("le=\"" + bound + "\"} ") == "{le=\"" + bound + "\"} ";
  }

  lemma PrefixedConcat(a: string, b: string)
    ensures Prefixed(a + b) == Prefixed(a) + Snake(b)
  {
    assert Snake(a + b) == Snake(a) + Snake(b);
  }

  lemma {:induction false} TableSpan(helps: seq<string>, values: seq<nat>, n: nat)
    requires n <= |helps| && n <= |values|
    ensures |TableLines(helps, values, n)| == 3 * n
  {
    hide Name, Comment, Sample;
    if n > 0 {
      TableSpan(helps, values, n - 1);
    }
  }

  /** Below the table and two comment lines, the rendered page has a line for each bucket with its
      bound in seconds and its counter, and one for all completed reviews. */
  lemma RenderedBuckets(counters: Metrics.Counters, helps: seq<string>, seconds: nat -> string, i: nat)
    requires |helps| == TABLE + 1 && AllOneLine(helps) && i < 8
    requires IsToken(seconds(Metrics.Get(counters, Metrics.ReviewDurationMsSum)))
    ensures var values := ReadAll(counters);
            && |values| == PAGE
            && var lines := Lines(Unlines(PageLines(helps, values, seconds(values[PAGE - 1]))));
               && |lines| == 112
               && lines[101 + i]
                  == Prefixed("review duration seconds bucket") + "{le=\""
                     + ["1", "5", "15", "30", "60", "120", "300", "600"][i] + "\"} "
                     + Decimal(Metrics.Get(counters, Metrics.Bucket(i)))
               && lines[109]
                  == Prefixed("review duration seconds bucket") + "{le=\"" + "+Inf" + "\"} "
                     + Decimal(Metrics.Get(counters, Metrics.ReviewsCompletedCount))
  {
    PageLayout(counters);
    hide Lines, Unlines, Prefixed, Decimal, Metrics.Get, ReadAll, Metrics.Table, BoundText, BucketLine, IsToken;
    hide OneLine, TableLines, HistogramHead, Sample;
    var values := ReadAll(counters);
    var sum := seconds(values[PAGE - 1]);
    TableSpan(helps, values, TABLE);
    TableIsOneLine(helps, values, TABLE);
    HistogramHeadWritten(helps[TABLE]);
    HistogramIsOneLine(helps[TABLE], values[TABLE..BUCKET_END], values[BUCKET_END], sum);
    LinesOfUnlines(PageLines(helps, values, sum));
    BucketLabels(i);
    BucketLineSpells(BoundText(i), values[TABLE..BUCKET_END][i]);
    BucketLineSpells("+Inf", values[BUCKET_END]);
  }

  // ----- The status command's summary -----

  /** The numbers of `StatusSummary`; the success rate as an exact fraction. */
  datatype Summary = Summary(jobsDispatched: nat, succeeded: nat, failed: nat, completed: nat, skipped: nat,
                             signatureFailures: nat, payloadFailures: nat, rateLimited: nat, pollCycles: nat,
                             successRate: Option<real>)

  function ValueOf(m: map<string, nat>, name: string): nat {
    if name in m then m[name] else 0
  }

  function Compute(m: map<string, nat>): Summary {
    var succeeded := ValueOf(m, Prefixed("reviews succeeded total"));
    var failed := ValueOf(m, Prefixed("reviews failed forgejo total"))
                  + ValueOf(m, Prefixed("reviews failed workspace total"))
                  + ValueOf(m, Prefixed("reviews failed llm total"))
                  + ValueOf(m, Prefixed("reviews failed unhealable total"));
    var skipped := ValueOf(m, Prefixed("reviews skipped same sha total"))
                   + ValueOf(m, Prefixed("reviews skipped trivial total"))
                   + ValueOf(m, Prefixed("reviews skipped disabled total"));
    var completed := ValueOf(m, Prefixed("reviews completed count"));
    Summary(ValueOf(m, Prefixed("jobs dispatched total")), succeeded, failed, completed, skipped,
            ValueOf(m, Prefixed("webhook signature failures total")),
            ValueOf(m, Prefixed("webhook payload failures total")),
            ValueOf(m, Prefixed("webhook rate limited total")),
            ValueOf(m, Prefixed("poll cycles total")),
            if completed > 0 then Some(succeeded as real / completed as real) else None)
  }

  /** A summary that says what the counters say. */
  ghost predicate Summarizes(s: Summary, c: Metrics.Counters) {
    && s.jobsDispatched == Metrics.Get(c, Metrics.JobsDispatched)
    && s.succeeded == Metrics.Get(c, Metrics.ReviewsSucceeded)
    && s.failed == Metrics.Get(c, Metrics.ReviewsFailedForgejo) + Metrics.Get(c, Metrics.ReviewsFailedWorkspace)
                   + Metrics.Get(c, Metrics.ReviewsFailedLlm) + Metrics.Get(c, Metrics.ReviewsFailedUnhealable)
    && s.completed == Metrics.Get(c, Metrics.ReviewsCompletedCount)
    && s.skipped == Metrics.Get(c, Metrics.ReviewsSkippedSameSha) + Metrics.Get(c, Metrics.ReviewsSkippedTrivial)
                    + Metrics.Get(c, Metrics.ReviewsSkippedDisabled)
    && s.signatureFailures == Metrics.Get(c, Metrics.WebhookSignatureFailures)
    && s.payloadFailures == Metrics.Get(c, Metrics.WebhookPayloadFailures)
    && s.rateLimited == Metrics.Get(c, Metrics.WebhookRateLimited)
    && s.pollCycles == Metrics.Get(c, Metrics.PollCycles)
    && (s.successRate == None <==> s.completed == 0)
    && (s.successRate.Some? ==> s.successRate.value * s.completed as real == s.succeeded as real)
  }

  lemma ShownIsValue(m: map<string, nat>, words: string, value: nat)
    requires Shows(m, words, value)
    ensures ValueOf(m, Prefixed(words)) == value
  {
    hide Prefixed;
  }

  lemma RateTimesCompleted(succeeded: nat, completed: nat)
    requires completed > 0
    ensures (succeeded as real / completed as real) * completed as real == succeeded as real
  {
  }

  lemma OutcomeNames()
    ensures NameOf(Metrics.ReviewsSucceeded) == "reviews succeeded total"
    ensures NameOf(Metrics.ReviewsFailedForgejo) == "reviews failed forgejo total"
    ensures NameOf(Metrics.ReviewsFailedWorkspace) == "reviews failed workspace total"
  {
  }

  lemma FailureNames()
    ensures NameOf(Metrics.ReviewsFailedLlm) == "reviews failed llm total"
    ensures NameOf(Metrics.ReviewsFailedUnhealable) == "reviews failed unhealable total"
    ensures NameOf(Metrics.ReviewsCompletedCount) == "reviews completed count"
  {
  }

  lemma SkipNames()
    ensures NameOf(Metrics.ReviewsSkippedSameSha) == "reviews skipped same sha total"
    ensures NameOf(Metrics.ReviewsSkippedTrivial) == "reviews skipped trivial total"
  {
  }

  lemma IntakeNames()
    ensures NameOf(Metrics.WebhookSignatureFailures) == "webhook signature failures total"
    ensures NameOf(Metrics.WebhookPayloadFailures) == "webhook payload failures total"
    ensures NameOf(Metrics.WebhookRateLimited) == "webhook rate limited total"
  {
  }

  lemma WorkNames()
    ensures NameOf(Metrics.ReviewsSkippedDisabled) == "reviews skipped disabled total"
    ensures NameOf(Metrics.JobsDispatched) == "jobs dispatched total"
    ensures NameOf(Metrics.PollCycles) == "poll cycles total"
  {
  }

  lemma ShownUnder(m: map<string, nat>, c: Metrics.Counters, k: Metrics.Counter, words: string)
    requires ShowsCounters(m, c) && !k.Bucket? && words == NameOf(k)
    ensures ValueOf(m, Prefixed(words)) == Metrics.Get(c, k)
  {
    hide NameOf, Prefixed, Metrics.Get;
  }

  lemma ShownIsSummarized(m: map<string, nat>, c: Metrics.Counters)
    requires ShowsCounters(m, c)
    ensures Summarizes(Compute(m), c)
  {
    hide Prefixed, Metrics.Get, ValueOf, Shows, ShowsCounters, NameOf;
    var s := Compute(m);
    OutcomeNames();
    FailureNames();
    SkipNames();
    IntakeNames();
    WorkNames();
    ShownUnder(m, c, Metrics.JobsDispatched, "jobs dispatched total");
    ShownUnder(m, c, Metrics.ReviewsSucceeded, "reviews succeeded total");
    ShownUnder(m, c, Metrics.ReviewsFailedForgejo, "reviews failed forgejo total");
    ShownUnder(m, c, Metrics.ReviewsFailedWorkspace, "reviews failed workspace total");
    ShownUnder(m, c, Metrics.ReviewsFailedLlm, "reviews failed llm total");
    ShownUnder(m, c, Metrics.ReviewsFailedUnhealable, "reviews failed unhealable total");
    ShownUnder(m, c, Metrics.ReviewsSkippedSameSha, "reviews skipped same sha total");
    ShownUnder(m, c, Metrics.ReviewsSkippedTrivial, "reviews skipped trivial total");
    ShownUnder(m, c, Metrics.ReviewsSkippedDisabled, "reviews skipped disabled total");
    ShownUnder(m, c, Metrics.ReviewsCompletedCount, "reviews completed count");
    ShownUnder(m, c, Metrics.WebhookSignatureFailures, "webhook signature failures total");
    ShownUnder(m, c, Metrics.WebhookPayloadFailures, "webhook payload failures total");
    ShownUnder(m, c, Metrics.WebhookRateLimited, "webhook rate limited total");
    ShownUnder(m, c, Metrics.PollCycles, "poll cycles total");
    if s.completed > 0 {
      RateTimesCompleted(s.succeeded, s.completed);
    }
  }

  /** From the gateway's counters over the rendered page to the operator's summary. */
  lemma SummaryOfRenderedPage(counters: Metrics.Counters, helps: seq<string>, seconds: nat -> string)
    requires forall k :: Metrics.Get(counters, k) < U64_LIMIT
    requires |helps| == TABLE + 1 && AllOneLine(helps)
    requires IsToken(seconds(Metrics.Get(counters, Metrics.ReviewDurationMsSum)))
    ensures var values := ReadAll(counters);
            && |values| == PAGE
            && Summarizes(Compute(StatusReads(Unlines(PageLines(helps, values, seconds(values[PAGE - 1]))))), counters)
  {
    hide StatusReads, Unlines, PageLines, ReadAll, Metrics.Get, IsToken, AllOneLine, ShowsCounters, Compute, Summarizes;
    RenderedCountersByName(counters, helps, seconds);
    var values := ReadAll(counters);
    ShownIsSummarized(StatusReads(Unlines(PageLines(helps, values, seconds(values[PAGE - 1])))), counters);
  }

  /** The summary's failures leave out panics and unknown error classes: at rest, succeeded and failed
      make up the completed reviews if and only if no review ended in either way. */
  lemma SummaryAddsUpIff(steps: seq<Metrics.Step>, s: Summary)
    requires Summarizes(s, Metrics.Run(steps).counters) && |Metrics.Run(steps).recorders| < U64_LIMIT
    requires Metrics.AllValid(Metrics.Run(steps).recorders) && Metrics.InFlightCount(Metrics.Run(steps).recorders) == 0
    ensures var rs := Metrics.Run(steps).recorders;
            && s.completed == |rs|
            && s.succeeded + s.failed
               + |Metrics.EndedAs(rs, Metrics.ReviewsFailedPanic)| + |Metrics.EndedAs(rs, Metrics.ReviewsFailedUnknown)|
               == s.completed
            && (s.succeeded + s.failed == s.completed <==>
                forall j :: 0 <= j < |rs| ==>
                  rs[j].review.outcome != Metrics.ReviewsFailedPanic
                  && rs[j].review.outcome != Metrics.ReviewsFailedUnknown)
  {
    hide Metrics.Run, Metrics.Get, Metrics.Sum, Metrics.SumOf, Metrics.NoLonger, Metrics.EndedAs, Metrics.InFlightCount;
    Metrics.QuiescentHistogramIsExact(steps, 0);
    Metrics.QuiescentCountersAreExact(steps, Metrics.ReviewsFailedPanic, 0);
    Metrics.QuiescentCountersAreExact(steps, Metrics.ReviewsFailedUnknown, 0);
    NoneEndedIff(Metrics.Run(steps).recorders, Metrics.ReviewsFailedPanic);
    NoneEndedIff(Metrics.Run(steps).recorders, Metrics.ReviewsFailedUnknown);
  }

  lemma NoneEndedIff(rs: Metrics.Recorders, k: Metrics.Counter)
    ensures |Metrics.EndedAs(rs, k)| == 0 <==> forall j :: 0 <= j < |rs| ==> rs[j].review.outcome != k
  {
    if j: nat :| j < |rs| && rs[j].review.outcome == k {
      assert j in Metrics.EndedAs(rs, k);
    } else {
      assert Metrics.EndedAs(rs, k) == {};
    }
  }
}
