/** `sanitize_oci_setup_detail` in crates/ar-gateway/src/startup.rs. All bytes that stop a path
are ASCII, so scanning characters finds the same ends as scanning bytes. */
module Redaction {
  import opened Text

  function Mask(): string {
    "[redacted]"
  }

  function Path(): (path: string)
    ensures path != ""
  {
    "/run/secrets/"
  }

  function Marker(): (marker: string)
    ensures marker != ""
  {
    "secret-bearing"
  }

  function Token(): (token: string)
    ensures token != ""
  {
    "ar-token"
  }

  // ----- Searching -----

  /** `str::find`. */
  function Find(s: string, t: string): (r: Option<nat>)
    ensures r.Some? ==> OccursAt(t, s, r.value) && r.value + |t| <= |s|
  {
    if OccursAt(t, s, 0) then Some(0)
    else if s == "" then None
    else
      match Find(s[1..], t)
      case None => None
      case Some(i) =>
        assert s[1..][i..i + |t|] == s[i + 1..i + 1 + |t|];
        Some(i + 1)
  }

  lemma {:induction false} FindIsFirst(s: string, t: string, j: nat)
    requires OccursAt(t, s, j)
    ensures Find(s, t).Some? && Find(s, t).value <= j
  {
    if !OccursAt(t, s, 0) {
      assert s[1..][j - 1..j - 1 + |t|] == s[j..j + |t|];
      FindIsFirst(s[1..], t, j - 1);
    }
  }

  lemma FindIffInfix(s: string, t: string)
    ensures Find(s, t).Some? <==> IsInfix(t, s)
  {
    if Find(s, t).Some? {
      assert OccursAt(t, s, Find(s, t).value);
    } else if j: nat :| OccursAt(t, s, j) {
      FindIsFirst(s, t, j);
    }
  }

  // ----- The path pass -----

  predicate IsStop(c: char) {
    || c == ' ' || c == '\t' || c == '\n' || c as int == 0x0C || c == '\r'
    || c == ';' || c == ',' || c == ')' || c == ']' || c == '}'
  }

  /** First stop at or after `from`, or the end. */
  function PathEnd(s: string, from: nat): (end: nat)
    requires from <= |s|
    ensures from <= end <= |s|
    ensures (forall i :: from <= i < end ==> !IsStop(s[i])) && (end < |s| ==> IsStop(s[end]))
    decreases |s| - from
  {
    if from == |s| || IsStop(s[from]) then from else PathEnd(s, from + 1)
  }

  function RedactPaths(s: string): string
    decreases |s|
  {
    match Find(s, Path())
    case None => s
    case Some(i) => s[..i] + Mask() + RedactPaths(s[PathEnd(s, i + |Path()|)..])
  }

  lemma {:induction false} PathEndIs(s: string, from: nat, end: nat)
    requires from <= end <= |s|
    requires (forall i :: from <= i < end ==> !IsStop(s[i])) && (end < |s| ==> IsStop(s[end]))
    ensures PathEnd(s, from) == end
    decreases end - from
  {
    if from < end {
      PathEndIs(s, from + 1, end);
    }
  }

  lemma RedactPathsOfSome(s: string, i: nat, end: nat)
    requires Find(s, Path()) == Some(i) && end == PathEnd(s, i + |Path()|)
    ensures RedactPaths(s) == s[..i] + Mask() + RedactPaths(s[end..])
  {
    hide Find, PathEnd, OccursAt, Path, Mask;
  }

  lemma SlicesOfRest(s: string, k: nat, i: nat, j: nat)
    requires k + i <= |s| && k + j <= |s|
    ensures s[k..][..i] == s[k..k + i] && s[k..][j..] == s[k + j..]
  {
  }

  lemma RedactPathsFrom(before: string, detail: string, cursor: nat, i: nat, end: nat)
    requires cursor <= |detail| && Find(detail[cursor..], Path()) == Some(i)
    requires cursor + i + |Path()| <= end <= |detail|
    requires forall k :: cursor + i + |Path()| <= k < end ==> !IsStop(detail[k])
    requires end < |detail| ==> IsStop(detail[end])
    ensures before + RedactPaths(detail[cursor..])
            == before + detail[cursor..cursor + i] + Mask() + RedactPaths(detail[end..])
  {
    hide Find, PathEnd, IsStop, OccursAt, Path, Mask, RedactPaths;
    PathEndIs(detail[cursor..], i + |Path()|, end - cursor);
    RedactPathsOfSome(detail[cursor..], i, end - cursor);
    SlicesOfRest(detail, cursor, i, end - cursor);
  }

  lemma RedactPathsOfNone(s: string)
    requires Find(s, Path()) == None
    ensures RedactPaths(s) == s
  {
    hide Find;
  }

  method RedactRunSecretsPathSuffix(detail: string) returns (sanitized: string)
    ensures sanitized == RedactPaths(detail)
  {
    hide IsStop, Find, RedactPaths, OccursAt, Path, Mask;
    sanitized := "";
    var cursor := 0;
    assert detail[0..] == detail;
    while Find(detail[cursor..], Path()).Some?
      invariant cursor <= |detail|
      invariant sanitized + RedactPaths(detail[cursor..]) == RedactPaths(detail)
      decreases |detail| - cursor
    {
      var relativeStart := Find(detail[cursor..], Path()).value;
      var start := cursor + relativeStart;
      ghost var before := sanitized;
      sanitized := sanitized + detail[cursor..start];
      var end := start + |Path()|;
      while end < |detail|
        invariant start + |Path()| <= end <= |detail|
        invariant forall i :: start + |Path()| <= i < end ==> !IsStop(detail[i])
      {
        if IsStop(detail[end]) {
          break;
        }
        end := end + 1;
      }
      RedactPathsFrom(before, detail, cursor, relativeStart, end);
      sanitized := sanitized + Mask();
      cursor := end;
    }
    RedactPathsOfNone(detail[cursor..]);
    sanitized := sanitized + detail[cursor..];
  }

  /** `str::replace` by the mask: left to right, without overlap. */
  function Replace(s: string, t: string): string
    requires t != ""
    decreases |s|
  {
    match Find(s, t)
    case None => s
    case Some(i) => s[..i] + Mask() + Replace(s[i + |t|..], t)
  }

  function Sanitize(detail: string): string {
    Replace(Replace(RedactPaths(detail), Marker()), Token())
  }

  // ----- No seam with the mask makes a pattern -----

  /** Neither bracket occurs in the pattern, and some other character of it is not in the mask. */
  ghost predicate IsForeign(t: string) {
    '[' !in t && ']' !in t && exists i :: 0 <= i < |t| && t[i] !in Mask()
  }

  lemma PatternsAreForeign()
    ensures IsForeign(Path()) && IsForeign(Marker()) && IsForeign(Token())
  {
    assert Path()[0] !in Mask() && Marker()[6] !in Mask() && Token()[2] !in Mask();
  }

  lemma TouchingTheMaskIsNotForeign(t: string, a: string, b: string, j: nat)
    requires OccursAt(t, a + Mask() + b, j) && j < |a| + |Mask()| && j + |t| > |a|
    ensures !IsForeign(t)
  {
    var s := a + Mask() + b;
    assert forall i :: 0 <= i < |t| ==> t[i] == s[j..j + |t|][i] == s[j + i];
    assert s[|a|] == '[' && s[|a| + 9] == ']';
    if j <= |a| {
      assert t[|a| - j] == '[';
    } else if j + |t| > |a| + 9 {
      assert t[|a| + 9 - j] == ']';
    } else {
      forall i | 0 <= i < |t|
        ensures t[i] in Mask()
      {
        assert t[i] == s[j + i] == Mask()[j + i - |a|];
      }
    }
  }

  lemma OccurrenceStaysOutsideTheMask(t: string, a: string, b: string, j: nat)
    requires IsForeign(t) && OccursAt(t, a + Mask() + b, j)
    ensures OccursAt(t, a, j) || (j >= |a| + |Mask()| && OccursAt(t, b, j - |a| - |Mask()|))
  {
    hide IsForeign;
    var s := a + Mask() + b;
    if j + |t| <= |a| {
      assert s[j..j + |t|] == a[j..j + |t|];
    } else if j >= |a| + |Mask()| {
      assert s[j..j + |t|] == b[j - |a| - |Mask()|..][..|t|];
    } else {
      TouchingTheMaskIsNotForeign(t, a, b, j);
    }
  }

  lemma SeamMakesNothing(t: string, a: string, b: string)
    requires IsForeign(t) && !IsInfix(t, a) && !IsInfix(t, b)
    ensures !IsInfix(t, a + Mask() + b)
  {
    hide IsForeign;
    if j: nat :| OccursAt(t, a + Mask() + b, j) {
      OccurrenceStaysOutsideTheMask(t, a, b, j);
    }
  }

  lemma PrefixMakesNothing(t: string, s: string, i: nat)
    requires i <= |s| && (forall j: nat :: j < i ==> !OccursAt(t, s, j)) && t != ""
    ensures !IsInfix(t, s[..i])
  {
    if j: nat :| OccursAt(t, s[..i], j) {
      assert s[..i][j..j + |t|] == s[j..j + |t|];
      assert OccursAt(t, s, j);
    }
  }

  lemma InfixOfPart(t: string, s: string, i: nat, k: nat)
    requires i <= k <= |s| && !IsInfix(t, s)
    ensures !IsInfix(t, s[i..k])
  {
    hide OccursAt;
    if IsInfix(t, s[i..k]) {
      assert s == s[..i] + s[i..k] + s[k..];
      InfixIntro(s[..i], s[i..k], s[k..]);
      InfixTransitive(t, s[i..k], s);
    }
  }

  // ----- Nothing secret is left -----

  lemma NothingBeforeTheFirst(s: string, t: string)
    requires t != "" && Find(s, t).Some?
    ensures !IsInfix(t, s[..Find(s, t).value])
  {
    hide OccursAt;
    forall j: nat | j < Find(s, t).value
      ensures !OccursAt(t, s, j)
    {
      if OccursAt(t, s, j) {
        FindIsFirst(s, t, j);
      }
    }
    PrefixMakesNothing(t, s, Find(s, t).value);
  }

  lemma {:induction false} NoPathIsLeft(s: string)
    ensures !IsInfix(Path(), RedactPaths(s))
    decreases |s|
  {
    hide Find, IsInfix, IsForeign, PathEnd, Path, Mask;
    FindIffInfix(s, Path());
    if Find(s, Path()).Some? {
      var i := Find(s, Path()).value;
      var rest := s[PathEnd(s, i + |Path()|)..];
      NothingBeforeTheFirst(s, Path());
      NoPathIsLeft(rest);
      PatternsAreForeign();
      SeamMakesNothing(Path(), s[..i], RedactPaths(rest));
    }
  }

  /** Replacing removes its pattern and brings no foreign pattern in. */
  lemma {:induction false} ReplaceLeavesNone(s: string, t: string, other: string)
    requires t != "" && IsForeign(other) && (other == t || !IsInfix(other, s))
    ensures !IsInfix(other, Replace(s, t))
    decreases |s|
  {
    hide Find, IsInfix, IsForeign, Mask;
    FindIffInfix(s, t);
    if Find(s, t).Some? {
      var i := Find(s, t).value;
      var rest := s[i + |t|..];
      NothingBeforeTheFirst(s, t);
      if other != t {
        InfixOfPart(other, s, 0, i);
        InfixOfPart(other, s, i + |t|, |s|);
        assert s[0..i] == s[..i] && s[i + |t|..|s|] == rest;
      }
      ReplaceLeavesNone(rest, t, other);
      SeamMakesNothing(other, s[..i], Replace(rest, t));
    }
  }

  ghost predicate ShowsNoSecret(s: string) {
    !IsInfix(Path(), s) && !IsInfix(Marker(), s) && !IsInfix(Token(), s)
  }

  lemma PatternsAre()
    ensures Path() == "/run/secrets/" && Marker() == "secret-bearing" && Token() == "ar-token" && Mask() == "[redacted]"
  {
  }

  /** The sanitized text contains none of the three patterns, also not across a mask. */
  lemma SanitizedShowsNoSecret(detail: string)
    ensures ShowsNoSecret(Sanitize(detail))
    ensures !IsInfix("/run/secrets/", Sanitize(detail)) && !IsInfix("secret-bearing", Sanitize(detail))
    ensures !IsInfix("ar-token", Sanitize(detail))
  {
    PatternsAre();
    hide RedactPaths, Replace, IsInfix, IsForeign, Path, Marker, Token;
    PatternsAreForeign();
    var a := RedactPaths(detail);
    var b := Replace(a, Marker());
    NoPathIsLeft(detail);
    ReplaceLeavesNone(a, Marker(), Path());
    ReplaceLeavesNone(a, Marker(), Marker());
    ReplaceLeavesNone(b, Token(), Path());
    ReplaceLeavesNone(b, Token(), Marker());
    ReplaceLeavesNone(b, Token(), Token());
  }

  /** Text without a secret is left alone, and nothing else is. */
  lemma SanitizeIsIdentityIff(detail: string)
    ensures Sanitize(detail) == detail <==> ShowsNoSecret(detail)
  {
    hide IsInfix, Find, Path, Marker, Token;
    SanitizedShowsNoSecret(detail);
    FindIffInfix(detail, Path());
    FindIffInfix(detail, Marker());
    FindIffInfix(detail, Token());
  }

  lemma SanitizeIsIdempotent(detail: string)
    ensures Sanitize(Sanitize(detail)) == Sanitize(detail)
  {
    hide Sanitize;
    SanitizedShowsNoSecret(detail);
    SanitizeIsIdentityIff(Sanitize(detail));
  }

  // ----- What is kept -----

  /** A text cut into kept parts and spans that are masked. */
  datatype Cut = Last(kept: string) | More(kept: string, span: string, rest: Cut)

  function Original(c: Cut): string {
    match c
    case Last(kept) => kept
    case More(kept, span, rest) => kept + span + Original(rest)
  }

  function Shown(c: Cut): string {
    match c
    case Last(kept) => kept
    case More(kept, span, rest) => kept + Mask() + Shown(rest)
  }

  predicate StartsStopped(s: string) {
    s == "" || IsStop(s[0])
  }

  /** The leftmost secret paths, each up to the next stop. */
  ghost predicate CutsPaths(c: Cut) {
    match c
    case Last(kept) => !IsInfix(Path(), kept)
    case More(kept, span, rest) =>
      && IsPathSpan(span) && (forall j: nat :: j < |kept| ==> !OccursAt(Path(), kept + span, j))
      && StartsStopped(Original(rest)) && CutsPaths(rest)
  }

  predicate IsPathSpan(span: string) {
    OccursAt(Path(), span, 0) && forall i :: |Path()| <= i < |span| ==> !IsStop(span[i])
  }

  function CutPaths(s: string): Cut
    decreases |s|
  {
    match Find(s, Path())
    case None => Last(s)
    case Some(i) =>
      var end := PathEnd(s, i + |Path()|);
      More(s[..i], s[i..end], CutPaths(s[end..]))
  }

  lemma {:induction false} CutPathsCuts(s: string)
    ensures Original(CutPaths(s)) == s && Shown(CutPaths(s)) == RedactPaths(s) && CutsPaths(CutPaths(s))
    decreases |s|
  {
    hide Find, IsInfix, PathEnd, IsStop, OccursAt, Path, Mask, Original, Shown, CutsPaths, CutPaths, RedactPaths;
    if Find(s, Path()).Some? {
      var i := Find(s, Path()).value;
      var end := PathEnd(s, i + |Path()|);
      CutPathsCuts(s[end..]);
      CutPathsOfSome(s, i, end);
      RedactPathsOfSome(s, i, end);
      MoreCuts(s, i, end, CutPaths(s[end..]));
    } else {
      LastCuts(s);
    }
  }

  lemma LastCuts(s: string)
    requires Find(s, Path()) == None
    ensures CutPaths(s) == Last(s) && RedactPaths(s) == s
    ensures Original(Last(s)) == s && Shown(Last(s)) == s && CutsPaths(Last(s))
  {
    hide Find, IsInfix, Path, Mask;
    FindIffInfix(s, Path());
  }

  lemma MoreCuts(s: string, i: nat, end: nat, rest: Cut)
    requires Find(s, Path()) == Some(i) && end == PathEnd(s, i + |Path()|)
    requires Original(rest) == s[end..] && CutsPaths(rest)
    ensures var c := More(s[..i], s[i..end], rest);
            Original(c) == s && CutsPaths(c) && Shown(c) == s[..i] + Mask() + Shown(rest)
  {
    hide Find, PathEnd, IsStop, OccursAt, Path, Mask, IsPathSpan;
    SpanIsPath(s, i, end);
    RestIsStopped(s, i + |Path()|);
    assert s[..i] + s[i..end] + s[end..] == s;
  }

  lemma CutPathsOfSome(s: string, i: nat, end: nat)
    requires Find(s, Path()) == Some(i) && end == PathEnd(s, i + |Path()|)
    ensures CutPaths(s) == More(s[..i], s[i..end], CutPaths(s[end..]))
  {
    hide Find, PathEnd, OccursAt, Path;
  }

  lemma RestIsStopped(s: string, from: nat)
    requires from <= |s|
    ensures StartsStopped(s[PathEnd(s, from)..])
  {
    hide PathEnd, IsStop;
  }

  lemma OccursInLonger(t: string, s: string, rest: string, j: nat)
    requires j + |t| <= |s|
    ensures OccursAt(t, s + rest, j) <==> OccursAt(t, s, j)
  {
    assert (s + rest)[j..j + |t|] == s[j..j + |t|];
  }

  lemma SpanIsPath(s: string, i: nat, end: nat)
    requires Find(s, Path()) == Some(i) && end == PathEnd(s, i + |Path()|)
    ensures IsPathSpan(s[i..end])
    ensures forall j: nat :: j < i ==> !OccursAt(Path(), s[..i] + s[i..end], j)
  {
    hide Find, PathEnd, IsStop, Path;
    var front, back := s[..i] + s[i..end], s[end..];
    assert s[i..end][0..|Path()|] == s[i..i + |Path()|];
    assert s == front + back;
    forall j: nat | j < i
      ensures !OccursAt(Path(), front, j)
    {
      if OccursAt(Path(), front, j) {
        OccursInLonger(Path(), front, back, j);
        FindIsFirst(s, Path(), j);
      }
    }
  }

  lemma FindIs(s: string, t: string, i: nat)
    requires OccursAt(t, s, i) && forall j: nat :: j < i ==> !OccursAt(t, s, j)
    ensures Find(s, t) == Some(i)
  {
    hide OccursAt;
    FindIsFirst(s, t, i);
  }

  /** The path pass is the only way to mask the leftmost secret paths up to their stops. */
  lemma {:induction false} CutPathsIsUnique(c: Cut)
    requires CutsPaths(c)
    ensures CutPaths(Original(c)) == c
  {
    hide Find, IsInfix, PathEnd, IsStop, CutPaths, Path;
    match c
    case Last(kept) =>
      FindIffInfix(kept, Path());
      LastCuts(kept);
    case More(kept, span, rest) =>
      var s := Original(c);
      SpanIsFound(kept, span, Original(rest));
      CutPathsOfSome(s, |kept|, |kept| + |span|);
      CutPathsIsUnique(rest);
      assert s[..|kept|] == kept && s[|kept|..|kept| + |span|] == span && s[|kept| + |span|..] == Original(rest);
  }

  lemma OccursInPrefix(t: string, a: string, b: string, j: nat)
    requires j + |t| <= |a|
    ensures OccursAt(t, a + b, j) <==> OccursAt(t, a, j)
  {
    assert (a + b)[j..j + |t|] == a[j..j + |t|];
  }

  lemma OccursInSuffix(t: string, a: string, b: string, j: nat)
    ensures OccursAt(t, a + b, |a| + j) <==> OccursAt(t, b, j)
  {
    if j + |t| <= |b| {
      assert (a + b)[|a| + j..|a| + j + |t|] == b[j..j + |t|];
    }
  }

  lemma SpanIsFound(kept: string, span: string, tail: string)
    requires IsPathSpan(span) && StartsStopped(tail)
    requires forall j: nat :: j < |kept| ==> !OccursAt(Path(), kept + span, j)
    ensures var s := kept + span + tail;
            Find(s, Path()) == Some(|kept|) && PathEnd(s, |kept| + |Path()|) == |kept| + |span|
  {
    hide Find, PathEnd, Path, OccursAt, IsPathSpan, StartsStopped;
    SpanIsLongEnough(span);
    var s, front := kept + span + tail, kept + span;
    OccursInSuffix(Path(), kept, span, 0);
    OccursInPrefix(Path(), front, tail, |kept|);
    forall j: nat | j < |kept|
      ensures !OccursAt(Path(), s, j)
    {
      OccursInPrefix(Path(), front, tail, j);
    }
    FindIs(s, Path(), |kept|);
    SpanEndsThere(kept, span, tail);
  }

  lemma SpanEndsThere(kept: string, span: string, tail: string)
    requires IsPathSpan(span) && StartsStopped(tail) && |Path()| <= |span|
    ensures PathEnd(kept + span + tail, |kept| + |Path()|) == |kept| + |span|
  {
    hide PathEnd, IsStop, Path, OccursAt;
    PathEndIs(kept + span + tail, |kept| + |Path()|, |kept| + |span|);
  }

  lemma SpanIsLongEnough(span: string)
    requires IsPathSpan(span)
    ensures |Path()| <= |span| && OccursAt(Path(), span, 0)
  {
  }

  function CutPattern(s: string, t: string): Cut
    requires t != ""
    decreases |s|
  {
    match Find(s, t)
    case None => Last(s)
    case Some(i) => More(s[..i], t, CutPattern(s[i + |t|..], t))
  }

  lemma {:induction false} CutPatternCuts(s: string, t: string)
    requires t != ""
    ensures Original(CutPattern(s, t)) == s && Shown(CutPattern(s, t)) == Replace(s, t)
    ensures SpansAre(CutPattern(s, t), {t})
    decreases |s|
  {
    hide Find, Mask;
    if Find(s, t).Some? {
      var i := Find(s, t).value;
      CutPatternCuts(s[i + |t|..], t);
      assert s[..i] + t + s[i + |t|..] == s;
    }
  }

  /** Every span is a secret path or one of the given patterns. */
  ghost predicate SpansAre(c: Cut, patterns: set<string>) {
    match c
    case Last(_) => true
    case More(_, span, rest) => (IsPathSpan(span) || span in patterns) && SpansAre(rest, patterns)
  }

  function Graft(c: Cut, span: string, rest: Cut): Cut {
    match c
    case Last(kept) => More(kept, span, rest)
    case More(kept, s, r) => More(kept, s, Graft(r, span, rest))
  }

  /** Cuts the kept parts further. */
  function Refine(c: Cut, t: string): Cut
    requires t != ""
  {
    match c
    case Last(kept) => CutPattern(kept, t)
    case More(kept, span, rest) => Graft(CutPattern(kept, t), span, Refine(rest, t))
  }

  lemma {:induction false} GraftIsConcat(c: Cut, span: string, rest: Cut, patterns: set<string>)
    requires SpansAre(c, patterns) && SpansAre(rest, patterns) && (IsPathSpan(span) || span in patterns)
    ensures Original(Graft(c, span, rest)) == Original(c) + span + Original(rest)
    ensures Shown(Graft(c, span, rest)) == Shown(c) + Mask() + Shown(rest)
    ensures SpansAre(Graft(c, span, rest), patterns)
  {
    hide Mask, IsPathSpan;
    match c
    case Last(_) =>
    case More(kept, s, r) =>
      GraftIsConcat(r, span, rest, patterns);
      assert kept + s + (Original(r) + span + Original(rest)) == kept + s + Original(r) + span + Original(rest);
      assert kept + Mask() + (Shown(r) + Mask() + Shown(rest)) == kept + Mask() + Shown(r) + Mask() + Shown(rest);
  }

  lemma {:induction false} SpansAreMore(c: Cut, few: set<string>, many: set<string>)
    requires SpansAre(c, few) && few <= many
    ensures SpansAre(c, many)
  {
    hide IsPathSpan;
    if c.More? {
      SpansAreMore(c.rest, few, many);
    }
  }

  lemma ReplaceOfSome(s: string, t: string, before: string, after: string)
    requires t != "" && Find(s, t) == Some(|before|) && s == before + t + after
    ensures Replace(s, t) == before + Mask() + Replace(after, t)
  {
    hide Find, OccursAt, Mask;
    assert s[..|before|] == before && s[|before| + |t|..] == after;
  }

  lemma SplitAtFound(s: string, t: string) returns (before: string, after: string)
    requires Find(s, t).Some?
    ensures s == before + t + after && Find(s, t) == Some(|before|) && |after| + |t| <= |s|
  {
    hide Find;
    var i := Find(s, t).value;
    before, after := s[..i], s[i + |t|..];
    assert s[i..i + |t|] == t;
  }

  /** Replacing a foreign pattern works on both sides of a mask independently. */
  lemma {:induction false} ReplaceAroundTheMask(a: string, b: string, t: string)
    requires t != "" && IsForeign(t)
    ensures Replace(a + Mask() + b, t) == Replace(a, t) + Mask() + Replace(b, t)
    decreases |a|
  {
    hide Find, IsForeign, Mask, Replace, OccursAt;
    if Find(a, t).Some? {
      var before, after := SplitAtFound(a, t);
      FoundBeforeTheMask(a, b, t);
      ReplaceAroundTheMask(after, b, t);
      assert a + Mask() + b == before + t + (after + Mask() + b);
      ReplaceOfSome(a, t, before, after);
      ReplaceOfSome(a + Mask() + b, t, before, after + Mask() + b);
    } else {
      FoundAfterTheMask(a, b, t);
      ReplaceOfNone(a, t);
      if Find(b, t).Some? {
        var before, after := SplitAtFound(b, t);
        assert a + Mask() + b == a + Mask() + before + t + after;
        ReplaceOfSome(b, t, before, after);
        ReplaceOfSome(a + Mask() + b, t, a + Mask() + before, after);
      } else {
        ReplaceOfNone(b, t);
        ReplaceOfNone(a + Mask() + b, t);
      }
    }
  }

  lemma ReplaceOfNone(s: string, t: string)
    requires t != "" && Find(s, t) == None
    ensures Replace(s, t) == s
  {
    hide Find;
  }

  lemma FoundBeforeTheMask(a: string, b: string, t: string)
    requires t != "" && IsForeign(t) && Find(a, t).Some?
    ensures Find(a + Mask() + b, t) == Find(a, t)
  {
    hide Find, IsForeign, Mask;
    var s, i := a + Mask() + b, Find(a, t).value;
    assert s[i..i + |t|] == a[i..i + |t|];
    forall j: nat | j < i
      ensures !OccursAt(t, s, j)
    {
      if OccursAt(t, s, j) {
        OccurrenceStaysOutsideTheMask(t, a, b, j);
        FindIsFirst(a, t, j);
      }
    }
    FindIs(s, t, i);
  }

  lemma FoundAfterTheMask(a: string, b: string, t: string)
    requires t != "" && IsForeign(t) && Find(a, t) == None
    ensures Find(a + Mask() + b, t)
            == match Find(b, t) case Some(k) => Some(|a| + |Mask()| + k) case None => None
  {
    hide Find, IsForeign, Mask;
    var s, m := a + Mask() + b, |a| + |Mask()|;
    forall j: nat | OccursAt(t, s, j)
      ensures j >= m && Find(b, t).Some? && j - m >= Find(b, t).value
    {
      OccurrenceStaysOutsideTheMask(t, a, b, j);
      if OccursAt(t, a, j) {
        FindIsFirst(a, t, j);
      } else {
        FindIsFirst(b, t, j - m);
      }
    }
    if Find(b, t).Some? {
      var k := Find(b, t).value;
      assert s[m + k..m + k + |t|] == b[k..k + |t|];
      FindIs(s, t, m + k);
    }
  }

  lemma {:induction false} RefineReplaces(c: Cut, t: string, patterns: set<string>)
    requires t != "" && IsForeign(t) && SpansAre(c, patterns)
    ensures Original(Refine(c, t)) == Original(c) && Shown(Refine(c, t)) == Replace(Shown(c), t)
    ensures SpansAre(Refine(c, t), patterns + {t})
  {
    hide IsForeign, Mask, Replace, IsPathSpan;
    match c
    case Last(kept) =>
      CutPatternCuts(kept, t);
      SpansAreMore(CutPattern(kept, t), {t}, patterns + {t});
    case More(kept, span, rest) =>
      CutPatternCuts(kept, t);
      SpansAreMore(CutPattern(kept, t), {t}, patterns + {t});
      RefineReplaces(rest, t, patterns);
      GraftIsConcat(CutPattern(kept, t), span, Refine(rest, t), patterns + {t});
      ReplaceAroundTheMask(kept, Shown(rest), t);
  }

  lemma {:induction false} CutPathsSpans(c: Cut)
    requires CutsPaths(c)
    ensures SpansAre(c, {})
  {
    hide IsPathSpan, IsInfix, OccursAt;
    if c.More? {
      CutPathsSpans(c.rest);
    }
  }

  function CutSecrets(detail: string): Cut {
    Refine(Refine(CutPaths(detail), Marker()), Token())
  }

  /** Sanitizing masks secret paths and the two patterns, and keeps all other text in order. */
  lemma SanitizeOnlyMasks(detail: string)
    ensures Original(CutSecrets(detail)) == detail
    ensures Shown(CutSecrets(detail)) == Sanitize(detail)
    ensures SpansAre(CutSecrets(detail), {"secret-bearing", "ar-token"})
  {
    PatternsAre();
    hide CutPaths, Refine, Replace, RedactPaths, IsForeign, Marker, Token, Original, Shown, SpansAre, CutsPaths;
    PatternsAreForeign();
    var c := CutPaths(detail);
    CutPathsCuts(detail);
    CutPathsSpans(c);
    RefineReplaces(c, Marker(), {});
    RefineReplaces(Refine(c, Marker()), Token(), {} + {Marker()});
    assert {} + {Marker()} + {Token()} == {Marker(), Token()};
  }

  // ----- One secret path -----

  /** What ends a path: ASCII whitespace and five closing characters, by their codes. */
  lemma StopIff(c: char)
    ensures IsStop(c) <==> c as int in [9, 10, 12, 13, 32, 41, 44, 59, 93, 125]
  {
  }

  /** Where the path comes first in the text up to its own end, it comes first in any longer one. */
  lemma FoundFirst(before: string, t: string, rest: string)
    requires forall j: nat :: j < |before| ==> !OccursAt(t, before + t, j)
    ensures Find(before + t + rest, t) == Some(|before|)
  {
    assert OccursAt(t, before + t, |before|);
    hide OccursAt, Find;
    OccursInLonger(t, before + t, rest, |before|);
    forall j: nat | j < |before|
      ensures !OccursAt(t, before + t + rest, j)
    {
      OccursInLonger(t, before + t, rest, j);
    }
    FindIs(before + t + rest, t, |before|);
  }

  lemma NameEnds(front: string, name: string, after: string)
    requires (forall i :: 0 <= i < |name| ==> !IsStop(name[i])) && (after != "" ==> IsStop(after[0]))
    ensures PathEnd(front + name + after, |front|) == |front| + |name|
  {
    hide IsStop;
    var s := front + name + after;
    assert forall i :: |front| <= i < |front| + |name| ==> s[i] == name[i - |front|];
    PathEndIs(s, |front|, |front| + |name|);
  }

  /** The first path in a text. */
  lemma FirstPathIsMasked(before: string, name: string, after: string)
    requires forall j: nat :: j < |before| ==> !OccursAt(Path(), before + Path(), j)
    requires (forall i :: 0 <= i < |name| ==> !IsStop(name[i])) && (after != "" ==> IsStop(after[0]))
    ensures RedactPaths(before + Path() + name + after) == before + Mask() + RedactPaths(after)
  {
    hide *;
    var front := before + Path();
    var s := front + name + after;
    FoundFirst(before, Path(), name + after);
    assert s == front + (name + after);
    NameEnds(front, name, after);
    RedactPathsOfSome(s, |before|, |front| + |name|);
    assert s[..|before|] == before && s[|front| + |name|..] == after;
  }

  /** A secret path is masked up to the next stop, and what stands before and after it is sanitized
      as if it stood alone. */
  lemma SecretPathIsMasked(before: string, name: string, after: string)
    requires forall j: nat :: j < |before| ==> !OccursAt("/run/secrets/", before + "/run/secrets/", j)
    requires forall i :: 0 <= i < |name| ==> name[i] as int !in [9, 10, 12, 13, 32, 41, 44, 59, 93, 125]
    requires after != "" ==> after[0] as int in [9, 10, 12, 13, 32, 41, 44, 59, 93, 125]
    ensures Sanitize(before + "/run/secrets/" + name + after)
            == Sanitize(before) + "[redacted]" + Sanitize(after)
  {
    PatternsAre();
    PatternsAreForeign();
    hide RedactPaths, Replace, Path, Mask, Marker, Token, IsForeign, IsStop, OccursAt, Find;
    forall c: char
      ensures IsStop(c) <==> c as int in [9, 10, 12, 13, 32, 41, 44, 59, 93, 125]
    {
      StopIff(c);
    }
    FirstPathIsMasked(before, name, after);
    NoPathBefore(before);
    RedactPathsOfNone(before);
    var a, b := before, RedactPaths(after);
    ReplaceAroundTheMask(a, b, Marker());
    ReplaceAroundTheMask(Replace(a, Marker()), Replace(b, Marker()), Token());
  }

  lemma NoPathBefore(before: string)
    requires forall j: nat :: j < |before| ==> !OccursAt(Path(), before + Path(), j)
    ensures Find(before, Path()) == None
  {
    hide Path, OccursAt;
    if Find(before, Path()).Some? {
      OccursInLonger(Path(), before, Path(), Find(before, Path()).value);
    }
  }
}
