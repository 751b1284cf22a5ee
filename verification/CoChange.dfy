/** The co-change graph built from `git log --name-only`, crates/ar-index/src/co_change.rs. */
module CoChange {
  import opened Basics
  import opened Text
  import opened Ranking

  /** From a file to the files changed together with it, with counts. */
  type Edges = map<string, map<string, nat>>

  function Weight(edges: Edges, a: string, b: string): nat {
    if a in edges && b in edges[a] then edges[a][b] else 0
  }

  /** No empty rows and no zero counts: the weights determine the graph. */
  ghost predicate Tidy(edges: Edges) {
    && (forall a :: a in edges ==> edges[a] != map[])
    && (forall a, b :: a in edges && b in edges[a] ==> edges[a][b] > 0)
  }

  lemma WeightsDetermineGraph(g: Edges, h: Edges)
    requires Tidy(g) && Tidy(h)
    requires forall a, b :: Weight(g, a, b) == Weight(h, a, b)
    ensures g == h
  {
    RowsContained(g, h);
    RowsContained(h, g);
    forall a | a in g
      ensures g[a] == h[a]
    {
      forall b
        ensures b in g[a] <==> b in h[a]
        ensures b in g[a] ==> g[a][b] == h[a][b]
      {
        assert Weight(g, a, b) == Weight(h, a, b);
      }
    }
  }

  lemma RowsContained(g: Edges, h: Edges)
    requires Tidy(g) && Tidy(h)
    requires forall a, b :: Weight(g, a, b) == Weight(h, a, b)
    ensures g.Keys <= h.Keys
  {
    forall a | a in g
      ensures a in h
    {
      var b :| b in g[a];
      assert Weight(g, a, b) > 0;
    }
  }

  // ----- What a commit contributes -----

  function Bump(x: string, y: string, a: string, b: string): nat {
    if x == a && y == b then 1 else 0
  }

  /** Ordered pairs of different listings: the listings of `a` times those of `b`, less the
      pairs of a listing with itself. */
  function PairWeight(files: multiset<string>, a: string, b: string): nat {
    if a == b then (if files[a] == 0 then 0 else files[a] * (files[a] - 1)) else files[a] * files[b]
  }

  /** What the inner loop adds for file `i` and the files from `i + 1` up to `j`. */
  function Row(files: seq<string>, i: nat, j: nat, a: string, b: string): nat
    requires i < j <= |files|
  {
    if j == i + 1 then 0
    else Row(files, i, j - 1, a, b) + Bump(files[i], files[j - 1], a, b) + Bump(files[j - 1], files[i], a, b)
  }

  /** What the outer loop adds for the files before `i`. */
  function Rows(files: seq<string>, i: nat, a: string, b: string): nat
    requires i <= |files|
  {
    if i == 0 then 0 else Rows(files, i - 1, a, b) + Row(files, i - 1, |files|, a, b)
  }

  lemma {:induction false} RowCounts(files: seq<string>, i: nat, j: nat, a: string, b: string)
    requires i < j <= |files|
    ensures Row(files, i, j, a, b) ==
            (if files[i] == a then multiset(files[i + 1..j])[b] else 0)
            + (if files[i] == b then multiset(files[i + 1..j])[a] else 0)
  {
    if j > i + 1 {
      RowCounts(files, i, j - 1, a, b);
      assert files[i + 1..j] == files[i + 1..j - 1] + [files[j - 1]];
    }
  }

  lemma SplitPairWeight(rest: multiset<string>, f: string, a: string, b: string)
    ensures PairWeight(rest + multiset{f}, a, b) ==
            PairWeight(rest, a, b) + (if f == a then rest[b] else 0) + (if f == b then rest[a] else 0)
  {
  }

  lemma {:induction false} RowsCount(files: seq<string>, i: nat, a: string, b: string)
    requires i <= |files|
    ensures Rows(files, i, a, b) + PairWeight(multiset(files[i..]), a, b) == PairWeight(multiset(files), a, b)
  {
    hide PairWeight, Row;
    if i == 0 {
      assert files[0..] == files;
    } else {
      RowsCount(files, i - 1, a, b);
      RowCounts(files, i - 1, |files|, a, b);
      BagOfTail(files, i - 1);
      SplitPairWeight(multiset(files[i..]), files[i - 1], a, b);
    }
  }

  lemma BagOfTail(files: seq<string>, i: nat)
    requires i < |files|
    ensures multiset(files[i..]) == multiset(files[i + 1..]) + multiset{files[i]}
    ensures files[i + 1..|files|] == files[i + 1..]
  {
    assert files[i..] == [files[i]] + files[i + 1..];
  }

  /** Sum over commits. */
  function TotalWeight(commits: seq<seq<string>>, a: string, b: string): nat {
    if commits == [] then 0
    else TotalWeight(commits[..|commits| - 1], a, b) + PairWeight(multiset(commits[|commits| - 1]), a, b)
  }

  // ----- Reading the log -----

  const COMMIT_PREFIX := "COMMIT "

  /** The file lists of the commits, and of whatever precedes the first one. */
  function Commits(lines: seq<string>): (r: (seq<seq<string>>, seq<string>))
  {
    if lines == [] then ([], [])
    else
      var (done, current) := Commits(lines[..|lines| - 1]);
      var line := TrimEnd(lines[|lines| - 1]);
      if line == "" then (done, current)
      else if COMMIT_PREFIX <= line then (done + [current], [])
      else (done, current + [line])
  }

  function AllCommits(log: string): seq<seq<string>> {
    var (done, current) := Commits(Lines(log));
    done + [current]
  }

  function Increment(edges: Edges, a: string, b: string): Edges {
    edges[a := (if a in edges then edges[a] else map[])[b := Weight(edges, a, b) + 1]]
  }

  lemma IncrementAddsOne(edges: Edges, a: string, b: string)
    requires Tidy(edges)
    ensures Tidy(Increment(edges, a, b))
    ensures forall x, y :: Weight(Increment(edges, a, b), x, y) == Weight(edges, x, y) + Bump(a, b, x, y)
  {
    assert b in Increment(edges, a, b)[a];
  }

  /** Add one commit's pairs, in both directions. */
  method Flush(edges: Edges, files: seq<string>) returns (r: Edges)
    requires Tidy(edges)
    ensures Tidy(r)
    ensures forall a, b :: Weight(r, a, b) == Weight(edges, a, b) + PairWeight(multiset(files), a, b)
  {
    r := edges;
    if |files| >= 2 {
      for i := 0 to |files|
        invariant Tidy(r)
        invariant forall a, b :: Weight(r, a, b) == Weight(edges, a, b) + Rows(files, i, a, b)
      {
        ghost var before := r;
        for j := i + 1 to |files|
          invariant Tidy(r)
          invariant forall a, b :: Weight(r, a, b) == Weight(before, a, b) + Row(files, i, j, a, b)
        {
          IncrementAddsOne(r, files[i], files[j]);
          r := Increment(r, files[i], files[j]);
          IncrementAddsOne(r, files[j], files[i]);
          r := Increment(r, files[j], files[i]);
        }
      }
    }
    forall a, b
      ensures Weight(r, a, b) == Weight(edges, a, b) + PairWeight(multiset(files), a, b)
    {
      RowsCount(files, |files|, a, b);
      assert files[|files|..] == [];
      if |files| < 2 {
        FewFilesNoPairs(files, a, b);
      }
    }
  }

  lemma FewFilesNoPairs(files: seq<string>, a: string, b: string)
    requires |files| < 2
    ensures PairWeight(multiset(files), a, b) == 0
  {
    if |files| == 1 {
      assert files == [files[0]];
    }
  }

  method ParseGitLog(log: string) returns (edges: Edges)
    ensures Tidy(edges)
    ensures forall a, b :: Weight(edges, a, b) == TotalWeight(AllCommits(log), a, b)
    ensures forall commits, a, b :: IsPrinted(log, commits) && NoneTwice(commits) ==>
              Weight(edges, a, b) == if a == b then 0 else |WithBoth(commits, a, b)|
  {
    edges := map[];
    var files: seq<string> := [];
    var lines := Lines(log);
    for n := 0 to |lines|
      invariant Tidy(edges)
      invariant files == Commits(lines[..n]).1
      invariant forall a, b :: Weight(edges, a, b) == TotalWeight(Commits(lines[..n]).0, a, b)
    {
      assert lines[..n + 1][..n] == lines[..n];
      var line := TrimEnd(lines[n]);
      if line == "" {
        continue;
      }
      if COMMIT_PREFIX <= line {
        ghost var done := Commits(lines[..n]).0;
        assert (done + [files])[..|done|] == done;
        edges := Flush(edges, files);
        files := [];
      } else {
        files := files + [line];
      }
    }
    assert lines[..|lines|] == lines;
    ghost var done := Commits(lines).0;
    assert (done + [files])[..|done|] == done;
    edges := Flush(edges, files);
    assert forall a, b :: Weight(edges, a, b) == TotalWeight(AllCommits(log), a, b);
    PrintedWeights(log, edges);
  }

  ghost predicate IsPrinted(log: string, commits: seq<LogCommit>) {
    AreLogCommits(commits) && log == Printed(LogLines(commits))
  }

  /** No commit lists a file twice. */
  predicate NoneTwice(commits: seq<LogCommit>) {
    forall i :: 0 <= i < |commits| ==> NoRepeats(commits[i].files)
  }

  lemma PrintedWeights(log: string, edges: Edges)
    requires forall a, b :: Weight(edges, a, b) == TotalWeight(AllCommits(log), a, b)
    ensures forall commits, a, b :: IsPrinted(log, commits) && NoneTwice(commits) ==>
              Weight(edges, a, b) == if a == b then 0 else |WithBoth(commits, a, b)|
  {
    hide Weight, TotalWeight, AllCommits, Printed, LogLines, AreLogCommits, WithBoth, NoneTwice, ListedOnce;
    forall commits, a, b | IsPrinted(log, commits) && NoneTwice(commits)
      ensures Weight(edges, a, b) == if a == b then 0 else |WithBoth(commits, a, b)|
    {
      ListedOnceEach(commits, a, b);
      if a == b {
        PrintedLogReadsBack(commits);
        NoSelfWeight([[]] + FileLists(commits), a);
      } else {
        PrintedLogWeights(commits, edges, a, b);
      }
    }
  }

  lemma {:induction false} NoSelfWeight(lists: seq<seq<string>>, a: string)
    requires forall i :: 0 <= i < |lists| ==> ListedOnce(lists[i], a, a)
    ensures TotalWeight(lists, a, a) == 0
  {
    if lists != [] {
      NoSelfWeight(lists[..|lists| - 1], a);
      assert ListedOnce(lists[|lists| - 1], a, a);
    }
  }

  lemma ListedOnceEach(commits: seq<LogCommit>, a: string, b: string)
    requires NoneTwice(commits)
    ensures forall i :: 0 <= i < |commits| ==> ListedOnce(commits[i].files, a, b)
    ensures var lists := [[]] + FileLists(commits); forall i :: 0 <= i < |lists| ==> ListedOnce(lists[i], a, b)
  {
    NothingIsListed(a, b);
    hide ListedOnce, NoRepeats;
    forall i | 0 <= i < |commits|
      ensures ListedOnce(commits[i].files, a, b)
    {
      OnceIfNoRepeats(commits[i].files, a, b);
    }
  }

  lemma OnceIfNoRepeats(files: seq<string>, a: string, b: string)
    requires NoRepeats(files)
    ensures ListedOnce(files, a, b)
  {
    NoRepeatsCounts(files, a);
    NoRepeatsCounts(files, b);
  }

  lemma {:induction false} NoRepeatsCounts(files: seq<string>, a: string)
    requires NoRepeats(files)
    ensures multiset(files)[a] <= 1 && (a in files <==> multiset(files)[a] == 1)
  {
    if files != [] {
      var n := |files| - 1;
      LastIsNew(files);
      NoRepeatsCounts(files[..n], a);
      assert files == files[..n] + [files[n]];
    }
  }

  // ----- Printed logs -----

  /** A commit as `git log --name-only` prints it, with a number of blank lines below its files. */
  datatype LogCommit = LogCommit(hash: string, files: seq<string>, blanks: nat)

  function CommitLines(c: LogCommit): seq<string> {
    ["COMMIT " + c.hash] + c.files + seq(c.blanks, _ => "")
  }

  function LogLines(commits: seq<LogCommit>): seq<string> {
    if commits == [] then [] else LogLines(commits[..|commits| - 1]) + CommitLines(commits[|commits| - 1])
  }

  function Printed(lines: seq<string>): string {
    if lines == [] then "" else lines[0] + "\n" + Printed(lines[1..])
  }

  /** On one line and not blank. */
  predicate IsHash(hash: string) {
    '\n' !in hash && exists i :: 0 <= i < |hash| && !IsWhitespace(hash[i])
  }

  /** On one line, not ending in whitespace, and no commit line. */
  predicate IsFileName(name: string) {
    '\n' !in name && name != "" && !IsWhitespace(name[|name| - 1]) && !("COMMIT " <= name)
  }

  predicate IsLogCommit(c: LogCommit) {
    IsHash(c.hash) && forall i :: 0 <= i < |c.files| ==> IsFileName(c.files[i])
  }

  predicate AreLogCommits(commits: seq<LogCommit>) {
    forall i :: 0 <= i < |commits| ==> IsLogCommit(commits[i])
  }

  function FileLists(commits: seq<LogCommit>): (r: seq<seq<string>>)
    ensures |r| == |commits| && forall i :: 0 <= i < |r| ==> r[i] == commits[i].files
  {
    seq(|commits|, i requires 0 <= i < |commits| => commits[i].files)
  }

  // One more line, of each kind.

  lemma OneMoreLine(lines: seq<string>, line: string)
    ensures TrimEnd(line) == "" ==> Commits(lines + [line]) == Commits(lines)
    ensures IsFileName(line) ==> Commits(lines + [line]) == (Commits(lines).0, Commits(lines).1 + [line])
    ensures TrimEnd(line) != "" && "COMMIT " <= TrimEnd(line) ==>
              Commits(lines + [line]) == (Commits(lines).0 + [Commits(lines).1], [])
  {
    hide IsWhitespace;
    assert (lines + [line])[..|lines|] == lines;
    if IsFileName(line) {
      assert TrimEnd(line) == line;
    }
  }

  /** A line of the prefix and a hash begins a commit if and only if the hash is not blank. */
  lemma {:induction false} CommitLineIff(hash: string)
    ensures (exists i :: 0 <= i < |hash| && !IsWhitespace(hash[i])) <==> "COMMIT " <= TrimEnd("COMMIT " + hash)
  {
    hide IsWhitespace, TrimEnd;
    if hash == "" {
      TrimPrefixAlone();
    } else {
      var n := |hash| - 1;
      TrimLast("COMMIT ", hash);
      if IsWhitespace(hash[n]) {
        CommitLineIff(hash[..n]);
        assert forall i :: 0 <= i < n ==> hash[..n][i] == hash[i];
      }
    }
  }

  lemma TrimLast(front: string, s: string)
    requires s != ""
    ensures TrimEnd(front + s) == if IsWhitespace(s[|s| - 1]) then TrimEnd(front + s[..|s| - 1]) else front + s
  {
    hide IsWhitespace;
    assert (front + s)[..|front + s| - 1] == front + s[..|s| - 1];
  }

  lemma TrimPrefixAlone()
    ensures !("COMMIT " <= TrimEnd("COMMIT " + ""))
  {
    assert "COMMIT " + "" == "COMMIT" + " ";
    assert ("COMMIT" + " ")[..6] == "COMMIT" && IsWhitespace(' ') && !IsWhitespace('T');
  }

  lemma {:induction false} MoreFiles(lines: seq<string>, files: seq<string>)
    requires forall i :: 0 <= i < |files| ==> IsFileName(files[i])
    ensures Commits(lines + files) == (Commits(lines).0, Commits(lines).1 + files)
  {
    hide Commits, IsFileName;
    if files == [] {
      assert lines + files == lines && Commits(lines).1 + files == Commits(lines).1;
    } else {
      var n := |files| - 1;
      MoreFiles(lines, files[..n]);
      assert lines + files == lines + files[..n] + [files[n]];
      OneMoreLine(lines + files[..n], files[n]);
      assert Commits(lines).1 + files == Commits(lines).1 + files[..n] + [files[n]];
    }
  }

  lemma {:induction false} MoreBlanks(lines: seq<string>, blanks: nat)
    ensures Commits(lines + seq(blanks, _ => "")) == Commits(lines)
  {
    hide Commits;
    var more: seq<string> := seq(blanks, _ => "");
    if blanks == 0 {
      assert lines + more == lines;
    } else {
      var fewer: seq<string> := seq(blanks - 1, _ => "");
      MoreBlanks(lines, blanks - 1);
      assert lines + more == lines + fewer + [""];
      OneMoreLine(lines + fewer, "");
    }
  }

  lemma OneMoreCommit(lines: seq<string>, c: LogCommit)
    requires IsLogCommit(c)
    ensures Commits(lines + CommitLines(c)) == (Commits(lines).0 + [Commits(lines).1], c.files)
  {
    hide Commits, IsFileName, TrimEnd, IsWhitespace;
    var line := "COMMIT " + c.hash;
    CommitLineIff(c.hash);
    OneMoreLine(lines, line);
    MoreFiles(lines + [line], c.files);
    MoreBlanks(lines + [line] + c.files, c.blanks);
    assert lines + CommitLines(c) == lines + [line] + c.files + seq(c.blanks, _ => "");
    assert [] + c.files == c.files;
  }

  lemma {:induction false} CommitsOfLog(commits: seq<LogCommit>)
    requires AreLogCommits(commits)
    ensures var (done, current) := Commits(LogLines(commits)); done + [current] == [[]] + FileLists(commits)
  {
    hide CommitLines, IsLogCommit;
    if commits != [] {
      var n := |commits| - 1;
      CommitsOfLog(commits[..n]);
      OneMoreCommit(LogLines(commits[..n]), commits[n]);
      assert FileLists(commits) == FileLists(commits[..n]) + [commits[n].files];
    }
  }

  // Lines that differ in the whitespace at their ends are read alike.

  predicate SameTrimmed(a: seq<string>, b: seq<string>) {
    |a| == |b| && forall i :: 0 <= i < |a| ==> TrimEnd(a[i]) == TrimEnd(b[i])
  }

  lemma {:induction false} TrimmedReadAlike(a: seq<string>, b: seq<string>)
    requires SameTrimmed(a, b)
    ensures Commits(a) == Commits(b)
  {
    hide TrimEnd;
    if a != [] {
      TrimmedReadAlike(a[..|a| - 1], b[..|b| - 1]);
    }
  }

  lemma TrimTakesCr(line: string)
    ensures TrimEnd(StripCr(line)) == TrimEnd(line)
  {
    assert IsWhitespace('\r');
    hide IsWhitespace;
  }

  lemma {:induction false} PrintedLines(lines: seq<string>)
    requires forall i :: 0 <= i < |lines| ==> '\n' !in lines[i]
    ensures SameTrimmed(Lines(Printed(lines)), lines)
  {
    hide Lines, TrimEnd, StripCr;
    if lines == [] {
      LinesOfNothing();
    } else {
      PrintedLines(lines[1..]);
      LinesOfConcat(lines[0], Printed(lines[1..]));
      TrimTakesCr(lines[0]);
      OneMoreInFront(StripCr(lines[0]), Lines(Printed(lines[1..])), lines);
    }
  }

  lemma OneMoreInFront(first: string, rest: seq<string>, lines: seq<string>)
    requires lines != [] && TrimEnd(first) == TrimEnd(lines[0]) && SameTrimmed(rest, lines[1..])
    ensures SameTrimmed([first] + rest, lines)
  {
    hide TrimEnd;
    forall i | 0 < i < |lines|
      ensures TrimEnd(([first] + rest)[i]) == TrimEnd(lines[i])
    {
      assert lines[1..][i - 1] == lines[i];
    }
  }

  lemma LinesOfNothing()
    ensures Lines("") == []
  {
  }

  lemma {:induction false} LogLinesAreLines(commits: seq<LogCommit>)
    requires AreLogCommits(commits)
    ensures forall i :: 0 <= i < |LogLines(commits)| ==> '\n' !in LogLines(commits)[i]
  {
    hide IsLogCommit, CommitLines;
    if commits != [] {
      LogLinesAreLines(commits[..|commits| - 1]);
      CommitLinesAreLines(commits[|commits| - 1]);
    }
  }

  lemma CommitLinesAreLines(c: LogCommit)
    requires IsLogCommit(c)
    ensures forall i :: 0 <= i < |CommitLines(c)| ==> '\n' !in CommitLines(c)[i]
  {
    hide IsWhitespace;
  }

  /** Reading a printed log gives back the file lists of its commits, in order, behind the empty
      list for what precedes the first commit. */
  lemma PrintedLogReadsBack(commits: seq<LogCommit>)
    requires AreLogCommits(commits)
    ensures AllCommits(Printed(LogLines(commits))) == [[]] + FileLists(commits)
  {
    hide Commits, Lines, Printed, LogLines, AreLogCommits, SameTrimmed;
    LogLinesAreLines(commits);
    PrintedLines(LogLines(commits));
    TrimmedReadAlike(Lines(Printed(LogLines(commits))), LogLines(commits));
    CommitsOfLog(commits);
  }

  // ----- What the weights mean -----

  lemma {:induction false} WeightsAreSymmetric(commits: seq<seq<string>>, a: string, b: string)
    ensures TotalWeight(commits, a, b) == TotalWeight(commits, b, a)
  {
    if commits != [] {
      WeightsAreSymmetric(commits[..|commits| - 1], a, b);
    }
  }

  /** How many commits touch both files. */
  function CommitsWithBoth(commits: seq<seq<string>>, a: string, b: string): nat {
    if commits == [] then 0
    else
      var files := commits[|commits| - 1];
      CommitsWithBoth(commits[..|commits| - 1], a, b) + if a in files && b in files then 1 else 0
  }

  predicate ListedOnce(files: seq<string>, a: string, b: string) {
    a in files && b in files ==> multiset(files)[a] == 1 && multiset(files)[b] == 1
  }

  lemma PairWeightIsOneIffListedOnce(files: seq<string>, a: string, b: string)
    requires a != b
    ensures var w, both := PairWeight(multiset(files), a, b), if a in files && b in files then 1 else 0;
            w >= both && (w == both <==> ListedOnce(files, a, b))
  {
    var x, y := multiset(files)[a], multiset(files)[b];
    assert a in files <==> x > 0;
    assert b in files <==> y > 0;
    if x > 0 && y > 0 {
      assert x * y >= x && x * y >= y;
    }
  }

  /** The weight of a pair is the number of commits that touch both, as the module says,
      exactly when no commit with both lists either of them twice. */
  lemma {:induction false} WeightCountsCommitsIff(commits: seq<seq<string>>, a: string, b: string)
    requires a != b
    ensures TotalWeight(commits, a, b) >= CommitsWithBoth(commits, a, b)
    ensures TotalWeight(commits, a, b) == CommitsWithBoth(commits, a, b) <==>
            forall i :: 0 <= i < |commits| ==> ListedOnce(commits[i], a, b)
  {
    if commits != [] {
      WeightCountsCommitsIff(commits[..|commits| - 1], a, b);
      PairWeightIsOneIffListedOnce(commits[|commits| - 1], a, b);
      hide ListedOnce, PairWeight;
    }
  }

  /** The commits of a log that list both files. */
  function WithBoth(commits: seq<LogCommit>, a: string, b: string): set<nat> {
    set i: nat | i < |commits| && a in commits[i].files && b in commits[i].files
  }

  lemma WithBothSnoc(commits: seq<LogCommit>, a: string, b: string)
    requires commits != []
    ensures var n := |commits| - 1;
            |WithBoth(commits, a, b)|
            == |WithBoth(commits[..n], a, b)| + if a in commits[n].files && b in commits[n].files then 1 else 0
  {
    var n: nat := |commits| - 1;
    var here: set<nat> := if a in commits[n].files && b in commits[n].files then {n} else {};
    assert WithBoth(commits, a, b) == WithBoth(commits[..n], a, b) + here;
  }

  lemma CommitsWithBothSnoc(lists: seq<seq<string>>, files: seq<string>, a: string, b: string)
    ensures CommitsWithBoth(lists + [files], a, b)
            == CommitsWithBoth(lists, a, b) + if a in files && b in files then 1 else 0
  {
    assert (lists + [files])[..|lists|] == lists;
  }

  lemma {:induction false} WithBothCounts(commits: seq<LogCommit>, a: string, b: string)
    ensures CommitsWithBoth([[]] + FileLists(commits), a, b) == |WithBoth(commits, a, b)|
  {
    if commits == [] {
      assert ([[]] + FileLists(commits))[..0] == [];
      assert WithBoth(commits, a, b) == {};
    } else {
      hide CommitsWithBoth, WithBoth, FileLists;
      var n := |commits| - 1;
      WithBothCounts(commits[..n], a, b);
      WithBothSnoc(commits, a, b);
      CommitsWithBothSnoc([[]] + FileLists(commits[..n]), commits[n].files, a, b);
      assert [[]] + FileLists(commits) == [[]] + FileLists(commits[..n]) + [commits[n].files];
    }
  }

  /** A graph that has the weights of a printed log gives every pair of files the number of the
      commits that list both, if no such commit lists either twice. */
  lemma PrintedLogWeights(commits: seq<LogCommit>, edges: Edges, a: string, b: string)
    requires AreLogCommits(commits) && a != b
    requires forall x, y :: Weight(edges, x, y) == TotalWeight(AllCommits(Printed(LogLines(commits))), x, y)
    ensures Weight(edges, a, b) >= |WithBoth(commits, a, b)|
    ensures Weight(edges, a, b) == |WithBoth(commits, a, b)| <==>
            forall i :: 0 <= i < |commits| ==> ListedOnce(commits[i].files, a, b)
  {
    hide AllCommits, Printed, LogLines, AreLogCommits, TotalWeight, CommitsWithBoth, WithBoth, ListedOnce, Weight;
    var lists := [[]] + FileLists(commits);
    PrintedLogReadsBack(commits);
    WithBothCounts(commits, a, b);
    WeightCountsCommitsIff(lists, a, b);
    NothingIsListed(a, b);
    assert forall i :: 0 <= i < |commits| ==> lists[i + 1] == commits[i].files;
    assert forall i :: 0 < i < |lists| ==> lists[i] == commits[i - 1].files;
  }

  lemma NothingIsListed(a: string, b: string)
    ensures ListedOnce([], a, b)
  {
  }

  // ----- Reordering -----

  function Bags(commits: seq<seq<string>>): (bags: seq<multiset<string>>)
    ensures |bags| == |commits|
  {
    seq(|commits|, i requires 0 <= i < |commits| => multiset(commits[i]))
  }

  function SumOfBags(bags: seq<multiset<string>>, a: string, b: string): nat {
    if bags == [] then 0 else SumOfBags(bags[..|bags| - 1], a, b) + PairWeight(bags[|bags| - 1], a, b)
  }

  lemma {:induction false} TotalIsSumOfBags(commits: seq<seq<string>>, a: string, b: string)
    ensures TotalWeight(commits, a, b) == SumOfBags(Bags(commits), a, b)
  {
    if commits != [] {
      var n := |commits| - 1;
      TotalIsSumOfBags(commits[..n], a, b);
      assert Bags(commits)[..n] == Bags(commits[..n]);
    }
  }

  lemma {:induction false} SumWithout(bags: seq<multiset<string>>, i: nat, a: string, b: string)
    requires i < |bags|
    ensures SumOfBags(bags, a, b) == SumOfBags(bags[..i] + bags[i + 1..], a, b) + PairWeight(bags[i], a, b)
  {
    var n := |bags| - 1;
    if i < n {
      SumWithout(bags[..n], i, a, b);
      var rest := bags[..i] + bags[i + 1..];
      assert rest[..n - 1] == bags[..n][..i] + bags[..n][i + 1..];
      assert rest[n - 1] == bags[n];
    } else {
      assert bags[..i] + bags[i + 1..] == bags[..n];
    }
  }

  lemma {:induction false} SumIgnoresOrder(c: seq<multiset<string>>, d: seq<multiset<string>>, a: string, b: string)
    requires multiset(c) == multiset(d)
    ensures SumOfBags(c, a, b) == SumOfBags(d, a, b)
    decreases |c|
  {
    if c == [] {
      assert |multiset(d)| == 0;
    } else {
      hide PairWeight;
      var n := |c| - 1;
      var i := SamePlace(c, d);
      SumIgnoresOrder(c[..n], d[..i] + d[i + 1..], a, b);
      SumWithout(d, i, a, b);
    }
  }

  /** Where the last bag of `c` stands in a reordering, and that the rest is reordered too. */
  lemma SamePlace(c: seq<multiset<string>>, d: seq<multiset<string>>) returns (i: nat)
    requires c != [] && multiset(c) == multiset(d)
    ensures i < |d| && d[i] == c[|c| - 1]
    ensures multiset(c[..|c| - 1]) == multiset(d[..i] + d[i + 1..])
  {
    var n := |c| - 1;
    assert c[n] in multiset(c);
    assert c[n] in multiset(d);
    var k :| 0 <= k < |d| && d[k] == c[n];
    i := k;
    BagWithout(d, i);
    BagWithout(c, n);
    assert c[..n] + c[n + 1..] == c[..n];
  }

  lemma BagWithout(d: seq<multiset<string>>, i: nat)
    requires i < |d|
    ensures multiset(d[..i] + d[i + 1..]) == multiset(d) - multiset{d[i]}
  {
    assert d == d[..i] + [d[i]] + d[i + 1..];
  }

  /** Reordering the commits of a log, or the files within them, does not change the graph. */
  lemma GraphIgnoresOrder(log1: string, log2: string, g: Edges, h: Edges)
    requires multiset(Bags(AllCommits(log1))) == multiset(Bags(AllCommits(log2)))
    requires Tidy(g) && forall a, b :: Weight(g, a, b) == TotalWeight(AllCommits(log1), a, b)
    requires Tidy(h) && forall a, b :: Weight(h, a, b) == TotalWeight(AllCommits(log2), a, b)
    ensures g == h
  {
    forall a, b
      ensures Weight(g, a, b) == Weight(h, a, b)
    {
      TotalIsSumOfBags(AllCommits(log1), a, b);
      TotalIsSumOfBags(AllCommits(log2), a, b);
      SumIgnoresOrder(Bags(AllCommits(log1)), Bags(AllCommits(log2)), a, b);
    }
    WeightsDetermineGraph(g, h);
  }

  // ----- Conservation -----

  /** Occurrences of the named files. */
  function CountOf(files: multiset<string>, names: seq<string>): nat {
    if names == [] then 0 else CountOf(files, names[..|names| - 1]) + files[names[|names| - 1]]
  }

  lemma {:induction false} CountOfSame(files: multiset<string>, other: multiset<string>, names: seq<string>)
    requires forall x :: x in names ==> files[x] == other[x]
    ensures CountOf(files, names) == CountOf(other, names)
  {
    if names != [] {
      CountOfSame(files, other, names[..|names| - 1]);
    }
  }

  lemma {:induction false} CountOfAll(files: multiset<string>, names: seq<string>)
    requires NoRepeats(names) && forall x :: x in files ==> x in names
    ensures CountOf(files, names) == |files|
    decreases |names|
  {
    if names == [] {
      assert files == multiset{};
    } else {
      var n := |names| - 1;
      var x := names[n];
      var rest := files[x := 0];
      assert names == names[..n] + [x];
      CountOfAll(rest, names[..n]);
      CountOfSame(files, rest, names[..n]);
      assert |files| == |rest| + files[x];
    }
  }

  type Weights = (string, string) -> nat

  /** Sum of one file's weights towards the named files. */
  function RowSum(w: Weights, a: string, names: seq<string>): nat {
    if names == [] then 0 else RowSum(w, a, names[..|names| - 1]) + w(a, names[|names| - 1])
  }

  function GridSum(w: Weights, rows: seq<string>, names: seq<string>): nat {
    if rows == [] then 0
    else GridSum(w, rows[..|rows| - 1], names) + RowSum(w, rows[|rows| - 1], names)
  }

  /** Total weight among the named files. */
  function Total(w: Weights, names: seq<string>): nat {
    GridSum(w, names, names)
  }

  function OfCommit(files: multiset<string>): Weights {
    (a, b) => PairWeight(files, a, b)
  }

  function OfCommits(commits: seq<seq<string>>): Weights {
    (a, b) => TotalWeight(commits, a, b)
  }

  function OfGraph(edges: Edges): Weights {
    (a, b) => Weight(edges, a, b)
  }

  lemma Distribute(x: int, y: int, z: int)
    ensures x * (y + z) == x * y + x * z
  {
  }

  lemma {:induction false} RowSumIs(files: multiset<string>, a: string, names: seq<string>)
    requires NoRepeats(names)
    ensures RowSum(OfCommit(files), a, names) == files[a] * CountOf(files, names) - if a in names then files[a] else 0
  {
    hide NoRepeats, PairWeight;
    if names != [] {
      var n := |names| - 1;
      LastIsNew(names);
      RowSumIs(files, a, names[..n]);
      Distribute(files[a], CountOf(files, names[..n]), files[names[n]]);
      LastPairWeight(files, a, names[n]);
    }
  }

  lemma LastIsNew(names: seq<string>)
    requires NoRepeats(names) && names != []
    ensures NoRepeats(names[..|names| - 1]) && names[|names| - 1] !in names[..|names| - 1]
    ensures forall x :: x in names <==> x in names[..|names| - 1] || x == names[|names| - 1]
  {
    assert names == names[..|names| - 1] + [names[|names| - 1]];
  }

  lemma LastPairWeight(files: multiset<string>, a: string, b: string)
    ensures PairWeight(files, a, b) == files[a] * files[b] - if a == b then files[a] else 0
  {
    if a == b && files[a] > 0 {
      Distribute(files[a], files[a], -1);
    }
  }

  lemma RowSumOverAll(files: multiset<string>, a: string, names: seq<string>)
    requires NoRepeats(names) && forall x :: x in files ==> x in names
    ensures RowSum(OfCommit(files), a, names) == files[a] * |files| - files[a]
  {
    RowSumIs(files, a, names);
    CountOfAll(files, names);
    hide RowSum;
    assert a !in names ==> a !in files && files[a] == 0;
  }

  lemma {:induction false} GridSumIs(files: multiset<string>, rows: seq<string>, names: seq<string>)
    requires NoRepeats(names) && forall x :: x in files ==> x in names
    ensures GridSum(OfCommit(files), rows, names) == CountOf(files, rows) * |files| - CountOf(files, rows)
  {
    hide RowSum, NoRepeats;
    if rows != [] {
      var n := |rows| - 1;
      GridSumIs(files, rows[..n], names);
      RowSumOverAll(files, rows[n], names);
      var total, before, here := |files|, CountOf(files, rows[..n]), files[rows[n]];
      assert (before + here) * total == before * total + here * total;
    }
  }

  function Pairs(n: nat): nat {
    if n == 0 then 0 else n * (n - 1)
  }

  /** A commit of n files adds n(n-1) to the total weight of the graph. */
  lemma CommitAddsAllPairs(files: seq<string>, names: seq<string>)
    requires NoRepeats(names) && forall x :: x in files ==> x in names
    ensures Total(OfCommit(multiset(files)), names) == Pairs(|files|)
  {
    GridSumIs(multiset(files), names, names);
    CountOfAll(multiset(files), names);
    Distribute(|files|, |files|, -1);
  }

  // Totals of sums and of equal weights.

  lemma {:induction false} RowSumAdds(u: Weights, v: Weights, w: Weights, a: string, names: seq<string>)
    requires forall x, y :: w(x, y) == u(x, y) + v(x, y)
    ensures RowSum(w, a, names) == RowSum(u, a, names) + RowSum(v, a, names)
  {
    if names != [] {
      RowSumAdds(u, v, w, a, names[..|names| - 1]);
    }
  }

  lemma {:induction false} GridSumAdds(u: Weights, v: Weights, w: Weights, rows: seq<string>, names: seq<string>)
    requires forall x, y :: w(x, y) == u(x, y) + v(x, y)
    ensures GridSum(w, rows, names) == GridSum(u, rows, names) + GridSum(v, rows, names)
  {
    if rows != [] {
      GridSumAdds(u, v, w, rows[..|rows| - 1], names);
      RowSumAdds(u, v, w, rows[|rows| - 1], names);
    }
  }

  lemma {:induction false} RowSumOfNothing(w: Weights, a: string, names: seq<string>)
    requires forall y :: w(a, y) == 0
    ensures RowSum(w, a, names) == 0
  {
    if names != [] {
      RowSumOfNothing(w, a, names[..|names| - 1]);
    }
  }

  lemma {:induction false} GridSumOfNothing(w: Weights, rows: seq<string>, names: seq<string>)
    requires forall x, y :: w(x, y) == 0
    ensures GridSum(w, rows, names) == 0
  {
    if rows != [] {
      GridSumOfNothing(w, rows[..|rows| - 1], names);
      RowSumOfNothing(w, rows[|rows| - 1], names);
    }
  }

  /** The sum of n(n-1) over the commits. */
  function PairsOf(commits: seq<seq<string>>): nat {
    if commits == [] then 0 else PairsOf(commits[..|commits| - 1]) + Pairs(|commits[|commits| - 1]|)
  }

  function FilesOf(commits: seq<seq<string>>): set<string> {
    set files, x | files in commits && x in files :: x
  }

  lemma {:induction false} CommitsConservePairs(commits: seq<seq<string>>, names: seq<string>)
    requires NoRepeats(names) && forall x :: x in FilesOf(commits) ==> x in names
    ensures Total(OfCommits(commits), names) == PairsOf(commits)
  {
    hide NoRepeats, Pairs, PairWeight, GridSum;
    if commits == [] {
      GridSumOfNothing(OfCommits(commits), names, names);
    } else {
      var front, last := commits[..|commits| - 1], commits[|commits| - 1];
      CommitsConservePairs(front, names);
      CommitAddsAllPairs(last, names);
      GridSumAdds(OfCommits(front), OfCommit(multiset(last)), OfCommits(commits), names, names);
    }
  }

  /** A file without weights adds nothing to a total. */
  lemma IsolatedAddsNothing(w: Weights, names: seq<string>, x: string)
    requires forall y :: w(x, y) == 0 && w(y, x) == 0
    ensures Total(w, names + [x]) == Total(w, names)
  {
    hide GridSum;
    RowSumOfNothing(w, x, names + [x]);
    GridSnoc(w, names, x, names + [x]);
    ColumnOfNothing(w, names, names, x);
  }

  lemma GridSnoc(w: Weights, rows: seq<string>, x: string, names: seq<string>)
    ensures GridSum(w, rows + [x], names) == GridSum(w, rows, names) + RowSum(w, x, names)
  {
    hide RowSum;
    assert (rows + [x])[..|rows|] == rows;
  }

  lemma {:induction false} ColumnOfNothing(w: Weights, rows: seq<string>, names: seq<string>, x: string)
    requires forall y :: w(y, x) == 0
    ensures GridSum(w, rows, names + [x]) == GridSum(w, rows, names)
  {
    if rows != [] {
      ColumnOfNothing(w, rows[..|rows| - 1], names, x);
      assert (names + [x])[..|names|] == names;
    }
  }

  /** For every log the total weight of its graph, over the files of the graph, is the sum of
      n(n-1) over the commits of n files. */
  lemma {:induction false} GraphConservesPairs(log: string, edges: Edges, names: seq<string>)
    requires forall a, b :: Weight(edges, a, b) == TotalWeight(AllCommits(log), a, b)
    requires NoRepeats(names) && forall x :: x in edges ==> x in names
    ensures Total(OfGraph(edges), names) == PairsOf(AllCommits(log))
    decreases FilesOf(AllCommits(log)) - Elements(names)
  {
    hide NoRepeats, AllCommits, FilesOf, Total, PairsOf, TotalWeight;
    var commits := AllCommits(log);
    if x :| x in FilesOf(commits) && x !in names {
      forall y
        ensures Weight(edges, x, y) == 0 && Weight(edges, y, x) == 0
      {
        WeightsAreSymmetric(commits, x, y);
      }
      IsolatedAddsNothing(OfGraph(edges), names, x);
      AppendNew(names, x);
      assert FilesOf(commits) - Elements(names + [x]) < FilesOf(commits) - Elements(names);
      GraphConservesPairs(log, edges, names + [x]);
    } else {
      CommitsConservePairs(commits, names);
      SameTotal(OfCommits(commits), OfGraph(edges), names);
    }
  }

  lemma AppendNew(names: seq<string>, x: string)
    requires NoRepeats(names) && x !in names
    ensures NoRepeats(names + [x]) && Elements(names + [x]) == Elements(names) + {x}
  {
  }

  lemma SameTotal(v: Weights, w: Weights, names: seq<string>)
    requires forall x, y :: v(x, y) == w(x, y)
    ensures Total(v, names) == Total(w, names)
  {
    var zero: Weights := (x, y) => 0;
    GridSumAdds(v, zero, w, names, names);
    GridSumOfNothing(zero, names, names);
  }

  // ----- Nearest neighbours -----

  /** Byte order, which for UTF-8 is the order of the code points. */
  predicate PathLess(a: string, b: string) {
    if a == "" || b == "" then a == "" && b != ""
    else a[0] < b[0] || (a[0] == b[0] && PathLess(a[1..], b[1..]))
  }

  /** The first difference decides; with none, the shorter path comes first. */
  ghost predicate DifferAt(a: string, b: string, k: nat) {
    && k <= |a| && k < |b| && (k < |a| ==> a[k] < b[k])
    && forall j :: 0 <= j < k ==> a[j] == b[j]
  }

  lemma {:induction false} PathLessIff(a: string, b: string)
    ensures PathLess(a, b) <==> exists k: nat :: DifferAt(a, b, k)
  {
    if a == "" || b == "" {
      if b != "" {
        assert DifferAt(a, b, 0);
      }
    } else if a[0] != b[0] {
      assert a[0] < b[0] <==> DifferAt(a, b, 0);
    } else {
      PathLessIff(a[1..], b[1..]);
      if k: nat :| DifferAt(a[1..], b[1..], k) {
        assert forall j :: 0 < j <= k ==> a[j] == a[1..][j - 1] && b[j] == b[1..][j - 1];
        assert DifferAt(a, b, k + 1);
      }
      if k: nat :| DifferAt(a, b, k) {
        assert k > 0 && DifferAt(a[1..], b[1..], k - 1);
      }
    }
  }

  lemma {:induction false} PathLessTotal(a: string, b: string)
    ensures !PathLess(a, a)
    ensures a != b ==> PathLess(a, b) || PathLess(b, a)
  {
    if a != "" {
      PathLessTotal(a[1..], if b != "" then b[1..] else "");
      assert a == [a[0]] + a[1..] && (b != "" ==> b == [b[0]] + b[1..]);
    }
  }

  lemma {:induction false} PathLessTransitive(a: string, b: string, c: string)
    requires PathLess(a, b) && PathLess(b, c)
    ensures PathLess(a, c)
  {
    if a != "" && a[0] == b[0] == c[0] {
      PathLessTransitive(a[1..], b[1..], c[1..]);
    }
  }

  /** More co-changes first, then by path. */
  function ByCount(row: map<string, nat>): (string, string) -> bool {
    (a, b) =>
      var x, y := (if a in row then row[a] else 0), (if b in row then row[b] else 0);
      x > y || (x == y && PathLess(a, b))
  }

  lemma ByCountIsTotal(row: map<string, nat>)
    ensures StrictTotalOrder(ByCount(row))
  {
    forall a, b
      ensures !ByCount(row)(a, a)
      ensures a != b ==> ByCount(row)(a, b) || ByCount(row)(b, a)
    {
      PathLessTotal(a, b);
    }
    forall a, b, c | ByCount(row)(a, b) && ByCount(row)(b, c)
      ensures ByCount(row)(a, c)
    {
      if PathLess(a, b) && PathLess(b, c) {
        PathLessTransitive(a, b, c);
      }
    }
  }

  function Paths(pairs: seq<(string, nat)>): seq<string> {
    seq(|pairs|, i requires 0 <= i < |pairs| => pairs[i].0)
  }

  /** Neighbours with their counts, larger counts first and equal ones by path; nothing left out
      has a larger count than anything kept. */
  ghost predicate MostFirst(row: map<string, nat>, topN: nat, r: seq<(string, nat)>) {
    && |r| == (if topN < |row| then topN else |row|)
    && (forall i :: 0 <= i < |r| ==> r[i].0 in row && r[i].1 == row[r[i].0])
    && (forall i, j :: 0 <= i < j < |r| ==> r[i].1 > r[j].1 || (r[i].1 == r[j].1 && PathLess(r[i].0, r[j].0)))
    && forall x, i :: x in row && 0 <= i < |r| && x !in Paths(r) ==>
         r[i].1 > row[x] || (r[i].1 == row[x] && PathLess(r[i].0, x))
  }

  lemma TopIsMostFirst(row: map<string, nat>, topN: nat, r: seq<(string, nat)>)
    requires IsTop(row.Keys, topN, ByCount(row), Paths(r))
    requires forall i :: 0 <= i < |r| && r[i].0 in row ==> r[i].1 == row[r[i].0]
    ensures MostFirst(row, topN, r)
  {
    hide PathLess;
    assert |row.Keys| == |row|;
    forall i | 0 <= i < |r|
      ensures r[i].0 in row
    {
      assert Paths(r)[i] in Elements(Paths(r));
    }
    forall i, j | 0 <= i < j < |r|
      ensures r[i].1 > r[j].1 || (r[i].1 == r[j].1 && PathLess(r[i].0, r[j].0))
    {
      assert ByCount(row)(Paths(r)[i], Paths(r)[j]);
    }
    forall x, i | x in row && 0 <= i < |r| && x !in Paths(r)
      ensures r[i].1 > row[x] || (r[i].1 == row[x] && PathLess(r[i].0, x))
    {
      assert Paths(r)[i] in Paths(r);
      assert ByCount(row)(Paths(r)[i], x);
    }
  }

  /** The neighbours are taken from the hash map in an arbitrary order. By TopIsUnique that
      order does not show in the result. */
  method CoChangedWith(edges: Edges, path: string, topN: nat) returns (r: seq<(string, nat)>)
    ensures path !in edges ==> r == []
    ensures path in edges ==> IsTop(edges[path].Keys, topN, ByCount(edges[path]), Paths(r))
    ensures forall i :: 0 <= i < |r| ==> r[i].1 == Weight(edges, path, r[i].0)
    ensures path in edges ==> MostFirst(edges[path], topN, r)
  {
    if path !in edges {
      return [];
    }
    var row := edges[path];
    var left, neighbours := row.Keys, [];
    while left != {}
      invariant NoRepeats(neighbours) && left !! Elements(neighbours)
      invariant left + Elements(neighbours) == row.Keys
    {
      var next :| next in left;
      left := left - {next};
      assert next !in Elements(neighbours);
      neighbours := neighbours + [next];
    }
    ByCountIsTotal(row);
    SortedPrefixIsTop(neighbours, topN, ByCount(row));
    var top := Truncate(Sort(neighbours, ByCount(row)), topN);
    r := seq(|top|, i requires 0 <= i < |top| => (top[i], Weight(edges, path, top[i])));
    assert Paths(r) == top;
    TopIsMostFirst(row, topN, r);
  }
}
