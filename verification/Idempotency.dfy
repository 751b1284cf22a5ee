/** Idempotent invocations, crates/ar-agentcore/src/lib.rs: the key of an invocation, and
invocations that run at the same time against the in-memory store. */
module Idempotency {
  import opened Basics
  import opened Text

  datatype Provider = Forgejo | Github

  datatype Kind = SemanticReview | ChatCommand

  datatype Payload = Payload(provider: Provider, kind: Kind, owner: string, repo: string, prNumber: nat,
                             headSha: string, commentId: Option<nat>,
                             installationId: Option<nat>, force: Option<bool>, commentBody: Option<string>) {
    /** The numbers are u64. */
    predicate Valid() {
      prNumber < U64_LIMIT && (commentId.Some? ==> commentId.value < U64_LIMIT)
    }
  }

  /** What an invocation is about; the other fields do not enter the key. */
  predicate SameInvocation(p: Payload, q: Payload) {
    && p.provider == q.provider && p.kind == q.kind && p.owner == q.owner && p.repo == q.repo
    && p.prNumber == q.prNumber && p.headSha == q.headSha && p.commentId == q.commentId
  }

  function ProviderName(p: Provider): string {
    match p
    case Forgejo => "Forgejo"
    case Github => "Github"
  }

  function KindName(k: Kind): string {
    match k
    case SemanticReview => "SemanticReview"
    case ChatCommand => "ChatCommand"
  }

  function CommentText(id: Option<nat>): string {
    match id
    case Some(n) => Decimal(n)
    case None => "-"
  }

  /** Owner, repository, pull request and head, between colons. */
  function Subject(owner: string, repo: string, prNumber: nat, headSha: string): string {
    owner + ":" + repo + ":" + Decimal(prNumber) + ":" + headSha
  }

  function IdempotencyKey(p: Payload): string {
    ProviderName(p.provider) + ":" + (KindName(p.kind) + ":"
    + (Subject(p.owner, p.repo, p.prNumber, p.headSha) + ":" + CommentText(p.commentId)))
  }

  // ----- Taking a key apart -----

  lemma FirstColon(a: string, b: string, x: string, y: string)
    requires ':' !in a && ':' !in b && a + ":" + x == b + ":" + y
    ensures a == b && x == y
  {
    var s := a + ":" + x;
    assert s[..|a|] == a && s[..|b|] == b;
    FindCharAt(s, ':', |a|);
    FindCharAt(s, ':', |b|);
    assert s[|a| + 1..] == x && s[|b| + 1..] == y;
  }

  lemma ColonBehind(a: string, b: string, x: string, y: string)
    requires a + ":" + x == b + ":" + y && |a| < |b|
    ensures ':' in x
  {
    assert x[|b| - |a| - 1] == (a + ":" + x)[|b|] == (b + ":" + y)[|b|];
  }

  lemma LastColon(a: string, b: string, x: string, y: string)
    requires ':' !in x && ':' !in y && a + ":" + x == b + ":" + y
    ensures a == b && x == y
  {
    if |a| < |b| {
      ColonBehind(a, b, x, y);
    } else if |b| < |a| {
      ColonBehind(b, a, y, x);
    } else {
      var s := a + ":" + x;
      assert s[..|a|] == a == b && s[|a| + 1..] == x == y;
    }
  }

  lemma DecimalHasNoColon(n: nat)
    ensures ':' !in Decimal(n) && '-' !in Decimal(n)
  {
    forall c | c in Decimal(n)
      ensures IsDigit(c)
    {
    }
  }

  lemma CommentTextIdentifies(a: Option<nat>, b: Option<nat>)
    ensures ':' !in CommentText(a)
    ensures CommentText(a) == CommentText(b) ==> a == b
  {
    if a.Some? {
      DecimalHasNoColon(a.value);
    }
    if b.Some? {
      DecimalHasNoColon(b.value);
    }
    if a.Some? && b.Some? && Decimal(a.value) == Decimal(b.value) {
      DecimalInjective(a.value, b.value);
    }
    assert CommentText(None)[0] == '-';
  }

  lemma NamesIdentify(p: Payload, q: Payload)
    ensures ':' !in ProviderName(p.provider) && ':' !in KindName(p.kind)
    ensures ProviderName(p.provider) == ProviderName(q.provider) ==> p.provider == q.provider
    ensures KindName(p.kind) == KindName(q.kind) ==> p.kind == q.kind
  {
    assert |ProviderName(Forgejo)| == 7 && |ProviderName(Github)| == 6;
    assert |KindName(SemanticReview)| == 14 && |KindName(ChatCommand)| == 11;
  }

  lemma SameKeySameSubject(p: Payload, q: Payload)
    requires IdempotencyKey(p) == IdempotencyKey(q)
    ensures p.provider == q.provider && p.kind == q.kind && p.commentId == q.commentId
    ensures Subject(p.owner, p.repo, p.prNumber, p.headSha) == Subject(q.owner, q.repo, q.prNumber, q.headSha)
  {
    hide ProviderName, KindName, CommentText, Subject;
    NamesIdentify(p, q);
    NamesIdentify(q, p);
    CommentTextIdentifies(p.commentId, q.commentId);
    CommentTextIdentifies(q.commentId, p.commentId);
    var s := Subject(p.owner, p.repo, p.prNumber, p.headSha) + ":" + CommentText(p.commentId);
    var t := Subject(q.owner, q.repo, q.prNumber, q.headSha) + ":" + CommentText(q.commentId);
    FirstColon(ProviderName(p.provider), ProviderName(q.provider),
               KindName(p.kind) + ":" + s, KindName(q.kind) + ":" + t);
    FirstColon(KindName(p.kind), KindName(q.kind), s, t);
    LastColon(Subject(p.owner, p.repo, p.prNumber, p.headSha), Subject(q.owner, q.repo, q.prNumber, q.headSha),
              CommentText(p.commentId), CommentText(q.commentId));
  }

  // ----- Reading a key back -----

  /** The parts of a text between its colons. */
  function Parts(s: string): seq<string>
    decreases |s|
  {
    var i := FindChar(s, ':');
    if i == |s| then [s] else [s[..i]] + Parts(s[i + 1..])
  }

  lemma PartsOfConcat(a: string, rest: string)
    requires ':' !in a
    ensures Parts(a + ":" + rest) == [a] + Parts(rest)
  {
    var s := a + ":" + rest;
    assert s[..|a|] == a;
    FindCharAt(s, ':', |a|);
    assert s[|a| + 1..] == rest;
  }

  lemma PartsOfOne(a: string)
    requires ':' !in a
    ensures Parts(a) == [a]
  {
    FindCharAbsent(a, ':');
  }

  /** With no colon in owner, repository and head, the key is the seven parts that make it up. */
  lemma KeyReadsBack(p: Payload)
    requires ':' !in p.owner && ':' !in p.repo && ':' !in p.headSha
    ensures Parts(IdempotencyKey(p))
            == [if p.provider == Forgejo then "Forgejo" else "Github",
                if p.kind == SemanticReview then "SemanticReview" else "ChatCommand",
                p.owner, p.repo, Decimal(p.prNumber), p.headSha,
                if p.commentId == None then "-" else Decimal(p.commentId.value)]
  {
    NamesIdentify(p, p);
    CommentTextIdentifies(p.commentId, p.commentId);
    DecimalHasNoColon(p.prNumber);
    hide Parts, Decimal, FindChar;
    var comment := CommentText(p.commentId);
    var head := p.headSha + ":" + comment;
    var number := Decimal(p.prNumber) + ":" + head;
    var repo := p.repo + ":" + number;
    var owner := p.owner + ":" + repo;
    PartsOfOne(comment);
    PartsOfConcat(p.headSha, comment);
    PartsOfConcat(Decimal(p.prNumber), head);
    PartsOfConcat(p.repo, number);
    PartsOfConcat(p.owner, repo);
    PartsOfConcat(KindName(p.kind), owner);
    PartsOfConcat(ProviderName(p.provider), KindName(p.kind) + ":" + owner);
    assert Subject(p.owner, p.repo, p.prNumber, p.headSha) + ":" + comment == owner;
  }

  // ----- When is a key unambiguous? -----

  /** From position `i`, the start of a part, the text continues with number `n` and a colon. */
  predicate NumberPartAt(s: string, i: nat, n: nat) {
    && (i == 0 || (i <= |s| && s[i - 1] == ':'))
    && i + |Decimal(n)| < |s| && s[i..i + |Decimal(n)|] == Decimal(n) && s[i + |Decimal(n)|] == ':'
  }

  /** Some part of the head other than its last, between colons, is a pull-request number. */
  ghost predicate HasNumberPart(headSha: string) {
    exists i: nat, n: nat :: n < U64_LIMIT && NumberPartAt(headSha, i, n)
  }

  ghost predicate IsUnambiguous(p: Payload) {
    ':' !in p.owner && ':' !in p.repo && !HasNumberPart(p.headSha)
  }

  /** Where the number begins. */
  function NumberStart(o: string, r: string): nat {
    |o| + |r| + 2
  }

  lemma SubjectLayout(o: string, r: string, n: nat, s: string)
    ensures var k, p := Subject(o, r, n, s), NumberStart(o, r);
            && p <= |k| && k[..|o|] == o && k[|o|] == ':' && k[|o| + 1..p - 1] == r && k[p - 1] == ':'
            && k[p..] == Decimal(n) + ":" + s
  {
    hide Decimal;
  }

  lemma ColonsBeforeNumber(o: string, r: string, k: string, j: nat)
    requires NumberStart(o, r) <= |k| && k[..|o|] == o && k[|o| + 1..NumberStart(o, r) - 1] == r
    requires j < NumberStart(o, r) - 1 && k[j] == ':'
    ensures j == |o| || ':' in o || ':' in r
  {
    if j < |o| {
      assert k[..|o|][j] == ':';
    } else if j > |o| {
      assert k[|o| + 1..NumberStart(o, r) - 1][j - |o| - 1] == ':';
    }
  }

  lemma ColonIsBehind(a: string, b: string, j: nat)
    requires j < |a + b| && (a + b)[j] == ':'
    ensures j >= |a| || ':' in a
  {
    if j < |a| {
      assert a[j] == ':';
    }
  }

  /** If a second reading has its number further right, the number is a part of the head. */
  lemma LaterNumberIsAPart(n: nat, s: string, n': nat, s': string, d: nat)
    requires var rest := Decimal(n) + ":" + s;
             0 < d <= |rest| && rest[d - 1] == ':' && rest[d..] == Decimal(n') + ":" + s'
    ensures exists i: nat :: NumberPartAt(s, i, n')
  {
    DecimalHasNoColon(n);
    hide Decimal;
    hide NumberPartAt;
    var rest, m := Decimal(n) + ":" + s, |Decimal(n)|;
    assert rest == Decimal(n) + (":" + s);
    ColonIsBehind(Decimal(n), ":" + s, d - 1);
    var i: nat := d - m - 1;
    assert s[i..] == rest[d..];
    assert i > 0 ==> s[i - 1] == rest[d - 1];
    PartFromSuffix(s, i, n', s');
  }

  lemma PartFromSuffix(s: string, i: nat, n: nat, after: string)
    requires i <= |s| && (i == 0 || s[i - 1] == ':') && s[i..] == Decimal(n) + ":" + after
    ensures NumberPartAt(s, i, n)
  {
    hide Decimal;
    var m := |Decimal(n)|;
    assert s[i..i + m] == s[i..][..m] == Decimal(n);
    assert s[i + m] == s[i..][m];
  }

  lemma SubjectIsUnambiguous(o: string, r: string, n: nat, s: string, o': string, r': string, n': nat, s': string)
    requires ':' !in o && ':' !in r && !HasNumberPart(s) && n' < U64_LIMIT
    requires Subject(o, r, n, s) == Subject(o', r', n', s')
    ensures o == o' && r == r' && n == n' && s == s'
  {
    hide Decimal, Subject, NumberPartAt;
    var k, p, p' := Subject(o, r, n, s), NumberStart(o, r), NumberStart(o', r');
    SubjectLayout(o, r, n, s);
    SubjectLayout(o', r', n', s');
    if p' < p {
      ColonsBeforeNumber(o, r, k, |o'|);
      ColonsBeforeNumber(o, r, k, p' - 1);
    } else if p' == p {
      ColonsBeforeNumber(o, r, k, |o'|);
      DecimalHasNoColon(n);
      DecimalHasNoColon(n');
      FirstColon(Decimal(n), Decimal(n'), s, s');
      DecimalInjective(n, n');
    } else {
      var rest := k[p..];
      assert rest[p' - p - 1] == ':' && rest[p' - p..] == k[p'..];
      LaterNumberIsAPart(n, s, n', s', p' - p);
    }
  }

  lemma SplitAtColon(s: string) returns (before: string, after: string)
    requires ':' in s
    ensures s == before + ":" + after
  {
    hide FindChar;
    var i := FindChar(s, ':');
    assert s[..|s|] == s;
    before, after := s[..i], s[i + 1..];
    assert s == s[..i] + [s[i]] + s[i + 1..];
  }

  lemma SplitAtNumber(s: string) returns (before: string, n: nat, after: string)
    requires HasNumberPart(s)
    ensures n < U64_LIMIT && (before == "" || before[|before| - 1] == ':')
    ensures s == before + (Decimal(n) + ":" + after)
  {
    hide Decimal;
    var i: nat, m: nat :| m < U64_LIMIT && NumberPartAt(s, i, m);
    n := m;
    before, after := s[..i], s[i + |Decimal(n)| + 1..];
    assert s[i..] == s[i..i + |Decimal(n)|] + [s[i + |Decimal(n)|]] + after;
    assert s == s[..i] + s[i..];
  }

  lemma SubjectFromOwnerColon(a: string, b: string, r: string, n: nat, s: string)
    ensures Subject(a + ":" + b, r, n, s) == Subject(a, b + ":" + r, n, s)
  {
    hide Decimal;
    assert a + ":" + b + ":" + r == a + ":" + (b + ":" + r);
  }

  lemma SubjectFromRepoColon(o: string, a: string, b: string, n: nat, s: string)
    ensures Subject(o, a + ":" + b, n, s) == Subject(o + ":" + a, b, n, s)
  {
    hide Decimal;
    assert o + ":" + (a + ":" + b) == o + ":" + a + ":" + b;
  }

  lemma SubjectFromNumber(o: string, r: string, n: nat, left: string, n': nat, after: string)
    ensures Subject(o, r + ":" + left, n', after) == o + ":" + (r + ":" + (left + ":" + (Decimal(n') + ":" + after)))
    ensures Subject(o, r, n, after) == o + ":" + (r + ":" + (Decimal(n) + ":" + after))
  {
    hide Decimal;
    var d := Decimal(n') + ":" + after;
    assert r + ":" + left + ":" + d == r + ":" + (left + ":" + d);
    assert Subject(o, r + ":" + left, n', after) == o + ":" + (r + ":" + left + ":" + d);
    assert Subject(o, r, n, after) == o + ":" + (r + ":" + (Decimal(n) + ":" + after));
  }

  /** A number part in the head can be read as the pull request instead. */
  lemma NumberCollides(o: string, r: string, n: nat, s: string)
      returns (r': string, n': nat, s': string)
    requires HasNumberPart(s)
    ensures n' < U64_LIMIT && r' != r && Subject(o, r', n', s') == Subject(o, r, n, s)
  {
    hide Decimal, Subject, HasNumberPart;
    var before, m, after := SplitAtNumber(s);
    var d := Decimal(m) + ":" + after;
    var long := Decimal(n) + ":" + before;
    var left := long[..|long| - 1];
    assert long == left + [long[|long| - 1]] && long[|long| - 1] == ':';
    assert Decimal(n) + ":" + (before + d) == left + ":" + d;
    SubjectFromNumber(o, r, n, left, m, after);
    SubjectFromNumber(o, r, n, left, m, s);
    r', n', s' := r + ":" + left, m, after;
  }

  /** A colon in the owner or in the repository moves the split between the two; a number in
      the head moves the whole left part. */
  lemma AmbiguousKeyCollides(p: Payload) returns (q: Payload)
    requires p.Valid() && !IsUnambiguous(p)
    ensures q.Valid() && IdempotencyKey(q) == IdempotencyKey(p) && !SameInvocation(p, q)
  {
    hide Decimal, Subject, HasNumberPart;
    if ':' in p.owner {
      var a, b := SplitAtColon(p.owner);
      SubjectFromOwnerColon(a, b, p.repo, p.prNumber, p.headSha);
      q := p.(owner := a, repo := b + ":" + p.repo);
      assert |q.owner| < |p.owner|;
    } else if ':' in p.repo {
      var a, b := SplitAtColon(p.repo);
      SubjectFromRepoColon(p.owner, a, b, p.prNumber, p.headSha);
      q := p.(owner := p.owner + ":" + a, repo := b);
      assert |q.owner| > |p.owner|;
    } else {
      var r, n, s := NumberCollides(p.owner, p.repo, p.prNumber, p.headSha);
      q := p.(repo := r, prNumber := n, headSha := s);
    }
  }

  /** The key tells an invocation from all others if and only if it can be taken apart. */
  lemma KeyIsUniqueIff(p: Payload)
    requires p.Valid()
    ensures (forall q: Payload :: q.Valid() && IdempotencyKey(q) == IdempotencyKey(p) ==> SameInvocation(p, q))
            <==> IsUnambiguous(p)
  {
    hide IdempotencyKey, HasNumberPart;
    if IsUnambiguous(p) {
      forall q: Payload | q.Valid() && IdempotencyKey(q) == IdempotencyKey(p)
        ensures SameInvocation(p, q)
      {
        SameKeySameSubject(p, q);
        SubjectIsUnambiguous(p.owner, p.repo, p.prNumber, p.headSha, q.owner, q.repo, q.prNumber, q.headSha);
      }
    } else {
      var q := AmbiguousKeyCollides(p);
    }
  }

  predicate IsColonFree(p: Payload) {
    ':' !in p.owner && ':' !in p.repo
  }

  /** Among invocations whose owner and repository have no colon, the key determines all seven
      fields, whatever the heads are. */
  lemma InjectiveOnColonFree(p: Payload, q: Payload)
    requires IsColonFree(p) && IsColonFree(q) && IdempotencyKey(p) == IdempotencyKey(q)
    ensures SameInvocation(p, q)
  {
    SameKeySameSubject(p, q);
    hide Decimal, IdempotencyKey;
    DecimalHasNoColon(p.prNumber);
    DecimalHasNoColon(q.prNumber);
    var u, v := Decimal(p.prNumber) + ":" + p.headSha, Decimal(q.prNumber) + ":" + q.headSha;
    assert Subject(p.owner, p.repo, p.prNumber, p.headSha) == p.owner + ":" + (p.repo + ":" + u);
    assert Subject(q.owner, q.repo, q.prNumber, q.headSha) == q.owner + ":" + (q.repo + ":" + v);
    FirstColon(p.owner, q.owner, p.repo + ":" + u, q.repo + ":" + v);
    FirstColon(p.repo, q.repo, u, v);
    FirstColon(Decimal(p.prNumber), Decimal(q.prNumber), p.headSha, q.headSha);
    DecimalInjective(p.prNumber, q.prNumber);
  }

  // ----- The store -----

  class InvocationStore {
    var seen: set<string>

    constructor ()
      ensures seen == {}
    {
      seen := {};
    }

    /** `HashSet::insert` under the lock. */
    method Claim(key: string) returns (inserted: bool)
      modifies this
      ensures inserted == (key !in old(seen))
      ensures seen == old(seen) + {key}
    {
      inserted := key !in seen;
      seen := seen + {key};
    }
  }

  // ----- Invocations at the same time -----

  datatype Phase = Arrived | Handling | Succeeded | Failed | AnsweredDuplicate

  datatype Invocation = Invocation(payload: Payload, phase: Phase)

  /** `seen` is the store; `handled` the payloads given to the handler, oldest first. */
  datatype State = State(seen: set<string>, invocations: seq<Invocation>, handled: seq<Payload>)

  datatype Step =
    | Arrive(payload: Payload)
    | Claim(index: nat)
    | Finish(index: nat, ok: bool)

  const INITIAL := State({}, [], [])

  predicate Enabled(s: State, step: Step) {
    match step
    case Arrive(p) => p.Valid()
    case Claim(i) => i < |s.invocations| && s.invocations[i].phase == Arrived
    case Finish(i, _) => i < |s.invocations| && s.invocations[i].phase == Handling
  }

  function InPhase(s: State, i: nat, phase: Phase): State
    requires i < |s.invocations|
  {
    s.(invocations := s.invocations[i := s.invocations[i].(phase := phase)])
  }

  function Next(s: State, step: Step): State {
    if !Enabled(s, step) then s else
    match step
    case Arrive(p) => s.(invocations := s.invocations + [Invocation(p, Arrived)])
    case Claim(i) =>
      var p := s.invocations[i].payload;
      if IdempotencyKey(p) in s.seen then InPhase(s, i, AnsweredDuplicate)
      else InPhase(s.(seen := s.seen + {IdempotencyKey(p)}, handled := s.handled + [p]), i, Handling)
    case Finish(i, ok) => InPhase(s, i, if ok then Succeeded else Failed)
  }

  /** The claim of `invocations_with_idempotency` and the branch on its answer, against the
      store: the handler is to run exactly if the step system hands the payload to it. */
  method ClaimInvocation(store: InvocationStore, payload: Payload, ghost s: State, ghost i: nat)
    returns (run: bool)
    requires Enabled(s, Claim(i)) && s.invocations[i].payload == payload && store.seen == s.seen
    modifies store
    ensures store.seen == Next(s, Claim(i)).seen
    ensures run <==> Next(s, Claim(i)).invocations[i].phase == Handling
    ensures !run <==> Next(s, Claim(i)).invocations[i].phase == AnsweredDuplicate
    ensures Next(s, Claim(i)).handled == if run then s.handled + [payload] else s.handled
  {
    hide IdempotencyKey;
    run := store.Claim(IdempotencyKey(payload));
  }

  function Run(steps: seq<Step>): State {
    if steps == [] then INITIAL else Next(Run(steps[..|steps| - 1]), steps[|steps| - 1])
  }

  function Keys(payloads: seq<Payload>): seq<string> {
    seq(|payloads|, i requires 0 <= i < |payloads| => IdempotencyKey(payloads[i]))
  }

  predicate WasHandled(s: State, key: string) {
    exists i :: 0 <= i < |s.handled| && IdempotencyKey(s.handled[i]) == key
  }

  /** An answered invocation has had its key handled, by itself or by an earlier one. */
  ghost predicate Inv(s: State) {
    && NoRepeats(Keys(s.handled))
    && (forall key :: key in s.seen <==> key in Keys(s.handled))
    && (forall i :: 0 <= i < |s.handled| ==> s.handled[i].Valid())
    && forall i :: 0 <= i < |s.invocations| ==>
         && s.invocations[i].payload.Valid()
         && (s.invocations[i].phase == Arrived || IdempotencyKey(s.invocations[i].payload) in s.seen)
  }

  lemma StepKeepsInv(s: State, step: Step)
    requires Inv(s)
    ensures Inv(Next(s, step)) && s.seen <= Next(s, step).seen && s.handled <= Next(s, step).handled
  {
    hide IdempotencyKey;
    if Enabled(s, step) && step.Claim? {
      var p := s.invocations[step.index].payload;
      assert Keys(s.handled + [p]) == Keys(s.handled) + [IdempotencyKey(p)];
    }
  }

  lemma {:induction false} RunKeepsInv(steps: seq<Step>)
    ensures Inv(Run(steps))
  {
    hide Inv, Next;
    if steps == [] {
      InitialInv();
    } else {
      RunKeepsInv(steps[..|steps| - 1]);
      StepKeepsInv(Run(steps[..|steps| - 1]), steps[|steps| - 1]);
    }
  }

  lemma InitialInv()
    ensures Inv(INITIAL)
  {
  }

  /** The handler is given no key twice, whatever the interleaving and whatever it answers. */
  lemma HandledAtMostOncePerKey(steps: seq<Step>, i: nat, j: nat)
    requires i < j < |Run(steps).handled|
    ensures IdempotencyKey(Run(steps).handled[i]) != IdempotencyKey(Run(steps).handled[j])
  {
    hide IdempotencyKey, Run;
    RunKeepsInv(steps);
    var keys := Keys(Run(steps).handled);
    assert keys[i] != keys[j];
  }

  lemma {:induction false} HandledGrows(steps: seq<Step>, n: nat)
    requires n <= |steps|
    ensures Run(steps[..n]).handled <= Run(steps).handled && Run(steps[..n]).seen <= Run(steps).seen
    decreases |steps|
  {
    hide Next, Inv;
    if n < |steps| {
      var m := |steps| - 1;
      HandledGrows(steps[..m], n);
      assert steps[..m][..n] == steps[..n];
      RunKeepsInv(steps[..m]);
      StepKeepsInv(Run(steps[..m]), steps[m]);
    } else {
      assert steps[..n] == steps;
    }
  }

  /** Once any invocation of a key was handled, every later claim of that key is answered
      duplicate, also when the handler failed; and no claim is answered so before. */
  lemma ClaimIsDuplicateIffHandledBefore(steps: seq<Step>, i: nat)
    requires Enabled(Run(steps), Claim(i))
    ensures var s := Run(steps);
            Next(s, Claim(i)).invocations[i].phase == AnsweredDuplicate
            <==> WasHandled(s, IdempotencyKey(s.invocations[i].payload))
  {
    hide IdempotencyKey, Run;
    RunKeepsInv(steps);
    var s := Run(steps);
    var key := IdempotencyKey(s.invocations[i].payload);
    KeysAreHandled(s, key);
  }

  lemma KeysAreHandled(s: State, key: string)
    ensures key in Keys(s.handled) <==> WasHandled(s, key)
  {
    hide IdempotencyKey;
    if k :| 0 <= k < |s.handled| && IdempotencyKey(s.handled[k]) == key {
      assert Keys(s.handled)[k] == key;
    }
  }

  predicate WasInvoked(s: State, p: Payload) {
    exists i :: 0 <= i < |s.handled| && SameInvocation(s.handled[i], p)
  }

  /** For an invocation with an unambiguous key, duplicate means that this invocation, and not
      just its key, was handled before. */
  lemma UnambiguousDuplicatesAreReal(steps: seq<Step>, i: nat)
    requires Enabled(Run(steps), Claim(i)) && IsUnambiguous(Run(steps).invocations[i].payload)
    ensures var s := Run(steps);
            Next(s, Claim(i)).invocations[i].phase == AnsweredDuplicate
            <==> WasInvoked(s, s.invocations[i].payload)
  {
    hide Run, Next, IsUnambiguous;
    RunKeepsInv(steps);
    ClaimIsDuplicateIffHandledBefore(steps, i);
    var s := Run(steps);
    var p := s.invocations[i].payload;
    KeyIsUniqueIff(p);
    if k :| 0 <= k < |s.handled| && SameInvocation(s.handled[k], p) {
      assert IdempotencyKey(s.handled[k]) == IdempotencyKey(p);
    }
    hide IdempotencyKey;
    if k :| 0 <= k < |s.handled| && IdempotencyKey(s.handled[k]) == IdempotencyKey(p) {
      assert SameInvocation(p, s.handled[k]);
    }
  }

  // ----- Runs in which no owner or repository has a colon -----

  predicate ArrivalsAreColonFree(steps: seq<Step>) {
    forall i :: 0 <= i < |steps| && steps[i].Arrive? ==> IsColonFree(steps[i].payload)
  }

  predicate PayloadsAreColonFree(s: State) {
    && (forall i :: 0 <= i < |s.handled| ==> IsColonFree(s.handled[i]))
    && forall i :: 0 <= i < |s.invocations| ==> IsColonFree(s.invocations[i].payload)
  }

  lemma {:induction false} RunStaysColonFree(steps: seq<Step>)
    requires ArrivalsAreColonFree(steps)
    ensures PayloadsAreColonFree(Run(steps))
  {
    hide IdempotencyKey, IsColonFree;
    if steps != [] {
      RunStaysColonFree(steps[..|steps| - 1]);
    }
  }

  /** In such a run, with any heads, an invocation is answered duplicate if and only if this very
      invocation was handled before: no two different invocations shadow each other. */
  lemma ColonFreeDuplicatesAreReal(steps: seq<Step>, i: nat)
    requires ArrivalsAreColonFree(steps) && Enabled(Run(steps), Claim(i))
    ensures var s := Run(steps);
            Next(s, Claim(i)).invocations[i].phase == AnsweredDuplicate
            <==> WasInvoked(s, s.invocations[i].payload)
  {
    hide Run, Next, IsColonFree;
    RunStaysColonFree(steps);
    ClaimIsDuplicateIffHandledBefore(steps, i);
    var s := Run(steps);
    var p := s.invocations[i].payload;
    forall k | 0 <= k < |s.handled|
      ensures SameInvocation(s.handled[k], p) <==> IdempotencyKey(s.handled[k]) == IdempotencyKey(p)
    {
      if IdempotencyKey(s.handled[k]) == IdempotencyKey(p) {
        InjectiveOnColonFree(s.handled[k], p);
      }
    }
    hide IdempotencyKey, SameInvocation;
  }

  /** Nor is any invocation handled twice. */
  lemma HandledAtMostOnce(steps: seq<Step>, i: nat, j: nat)
    requires i < j < |Run(steps).handled|
    ensures !SameInvocation(Run(steps).handled[i], Run(steps).handled[j])
  {
    HandledAtMostOncePerKey(steps, i, j);
    hide Run;
  }
}
