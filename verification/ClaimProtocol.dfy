/** Webhooks and polling passes racing for comments: the atomic steps of
`handle_issue_comment` (crates/ar-gateway/src/webhook.rs) and of `poll_once`/`poll_pr`
(crates/ar-gateway/src/poller.rs), in any interleaving and with any number of passes.

Every access to the shared cursors happens under one mutex, so each is one step. The
`lives`, `claims`, `marks` and `sent` components are history: whether a step is enabled and
what it does to `cursors` do not depend on them. A poll's `pending` comments are kept as
positions in `claims`. */
module ClaimProtocol {
  import opened Basics
  import opened Text
  import opened Command
  import opened Poller

  datatype Owner = ByWebhook | ByPoll(task: nat)

  /** A won claim: the comment it was for, and the lifetime of the cursor entry it fell in. */
  datatype Claim = Claim(key: PrKey, life: nat, comment: Comment, owner: Owner)

  /** A claim attempt, won or lost, or a seed. */
  datatype Mark = Mark(key: PrKey, life: nat, value: nat)

  datatype Phase = Listed | Scanning | Sending

  /** One `poll_pr` in flight; `pending` are the claims it still has to dispatch. */
  datatype Poll = Poll(key: PrKey, comments: seq<Comment>, phase: Phase, cursor: nat, firstSight: bool,
                       maxSeen: nat, next: nat, pending: seq<nat>)

  datatype State = State(cursors: Cursors, polls: map<nat, Poll>,
                         lives: map<PrKey, nat>, claims: seq<Claim>, marks: seq<Mark>, sent: seq<nat>)

  /** An issue_comment webhook. */
  datatype Event = Event(created: bool, onPullRequest: bool, key: PrKey, comment: Comment)

  datatype Step =
    | Webhook(event: Event)
    | List(task: nat, key: PrKey, comments: seq<Comment>)
    | Snapshot(task: nat)
    | Scan(task: nat)
    | EndScan(task: nat)
    | Send(task: nat)
    | Finish(task: nat)
    | Prune(known: set<PrKey>)

  const INITIAL := State(map[], map[], map[], [], [], [])

  /** How often the key's entry has been pruned. */
  function Life(s: State, key: PrKey): nat {
    if key in s.lives then s.lives[key] else 0
  }

  /** The webhook handler gets as far as the claim. */
  predicate ReachesClaim(config: Config, e: Event) {
    && e.created && e.onPullRequest
    && !FromBot(config, e.comment)
    && ParseChatCommand(e.comment.body, config.botName) != NotMentioned
  }

  function RaiseAndMark(s: State, key: PrKey, value: nat): State {
    s.(cursors := Raise(s.cursors, key, value), marks := s.marks + [Mark(key, Life(s, key), value)])
  }

  /** `claim_chat_comment`; a win is recorded. */
  function TryClaim(s: State, key: PrKey, c: Comment, owner: Owner): State {
    var won := Wins(s.cursors, key, c.id);
    var s' := RaiseAndMark(s, key, c.id);
    if won then s'.(claims := s.claims + [Claim(key, Life(s, key), c, owner)]) else s'
  }

  predicate Enabled(config: Config, s: State, step: Step) {
    match step
    case Webhook(e) => ReachesClaim(config, e)
    case List(t, _, _) => t !in s.polls
    case Snapshot(t) => t in s.polls && s.polls[t].phase == Listed
    case Scan(t) => t in s.polls && s.polls[t].phase == Scanning && s.polls[t].next < |s.polls[t].comments|
    case EndScan(t) => t in s.polls && s.polls[t].phase == Scanning && s.polls[t].next == |s.polls[t].comments|
    case Send(t) => t in s.polls && s.polls[t].phase == Sending && s.polls[t].pending != []
    case Finish(t) => t in s.polls && s.polls[t].phase == Sending && s.polls[t].pending == []
    case Prune(_) => true
  }

  function WebhookNext(s: State, e: Event): State {
    var s' := TryClaim(s, e.key, e.comment, ByWebhook);
    if Wins(s.cursors, e.key, e.comment.id) then s'.(sent := s.sent + [|s.claims|]) else s'
  }

  function ScanNext(config: Config, s: State, t: nat): State
    requires Enabled(config, s, Scan(t))
  {
    var p := s.polls[t];
    var c := p.comments[p.next];
    var q := p.(next := p.next + 1, maxSeen := Max(p.maxSeen, c.id));
    if p.firstSight || c.id <= p.cursor then s.(polls := s.polls[t := q])
    else
      var s' := TryClaim(s, p.key, c, ByPoll(t));
      if Wanted(config, c) && Wins(s.cursors, p.key, c.id)
      then s'.(polls := s.polls[t := q.(pending := p.pending + [|s.claims|])])
      else s'.(polls := s.polls[t := q])
  }

  function PruneNext(s: State, known: set<PrKey>): State {
    s.(cursors := Retain(s.cursors, known),
       lives := map k | k in s.lives.Keys + s.cursors.Keys ::
         Life(s, k) + if k in s.cursors && k !in known then 1 else 0)
  }

  /** A step that is not enabled leaves the state alone. */
  function Next(config: Config, s: State, step: Step): State {
    if !Enabled(config, s, step) then s else
    match step
    case Webhook(e) => WebhookNext(s, e)
    case List(t, key, comments) =>
      s.(polls := s.polls[t := Poll(key, comments, Listed, 0, false, 0, 0, [])])
    case Snapshot(t) =>
      var p := s.polls[t];
      var cursor := Cursor(s.cursors, p.key);
      s.(polls := s.polls[t := p.(phase := Scanning, cursor := cursor, firstSight := p.key !in s.cursors,
                                  maxSeen := cursor)])
    case Scan(t) => ScanNext(config, s, t)
    case EndScan(t) =>
      var p := s.polls[t];
      var s' := if p.firstSight then RaiseAndMark(s, p.key, p.maxSeen) else s;
      s'.(polls := s.polls[t := p.(phase := Sending)])
    case Send(t) =>
      var p := s.polls[t];
      s.(polls := s.polls[t := p.(pending := p.pending[1..])], sent := s.sent + [p.pending[0]])
    case Finish(t) => s.(polls := s.polls - {t})
    case Prune(known) => PruneNext(s, known)
  }

  function Run(config: Config, steps: seq<Step>): State {
    if steps == [] then INITIAL
    else Next(config, Run(config, steps[..|steps| - 1]), steps[|steps| - 1])
  }

  // ----- Invariants -----

  /** The cursor is the greatest mark of the entry's current lifetime. */
  ghost predicate MarksInv(s: State) {
    && (forall m :: m in s.marks ==> m.life <= Life(s, m.key))
    && (forall m :: m in s.marks && m.life == Life(s, m.key) ==>
          m.key in s.cursors && m.value <= s.cursors[m.key])
    && (forall k :: k in s.cursors ==> Mark(k, Life(s, k), s.cursors[k]) in s.marks)
  }

  predicate SameLifetime(a: Claim, b: Claim) {
    a.key == b.key && a.life == b.life
  }

  ghost predicate ClaimsInv(s: State) {
    && (forall c :: c in s.claims ==> Mark(c.key, c.life, c.comment.id) in s.marks)
    && (forall i, j :: 0 <= i < j < |s.claims| && SameLifetime(s.claims[i], s.claims[j]) ==>
          s.claims[i].comment.id < s.claims[j].comment.id)
  }

  ghost predicate SentInv(config: Config, s: State) {
    && NoRepeats(s.sent)
    && (forall x :: x in s.sent ==> x < |s.claims| && Wanted(config, s.claims[x].comment))
  }

  ghost predicate PollInv(config: Config, s: State, t: nat, p: Poll) {
    && p.next <= |p.comments|
    && Increasing(p.pending)
    && (p.firstSight || p.phase == Listed ==> p.pending == [])
    && (forall x :: x in p.pending ==>
          && x < |s.claims| && x !in s.sent
          && s.claims[x].owner == ByPoll(t) && s.claims[x].key == p.key
          && Wanted(config, s.claims[x].comment))
  }

  ghost predicate Inv(config: Config, s: State) {
    && MarksInv(s) && ClaimsInv(s) && SentInv(config, s)
    && forall t :: t in s.polls ==> PollInv(config, s, t, s.polls[t])
  }

  lemma RaiseAndMarkKeepsMarks(s: State, key: PrKey, value: nat)
    requires MarksInv(s)
    ensures MarksInv(RaiseAndMark(s, key, value))
  {
    var s' := RaiseAndMark(s, key, value);
    forall k | k in s'.cursors
      ensures Mark(k, Life(s', k), s'.cursors[k]) in s'.marks
    {
      if k == key && s'.cursors[k] == value {
        assert s'.marks[|s.marks|] == Mark(k, Life(s', k), s'.cursors[k]);
      }
    }
  }

  lemma TryClaimKeepsClaims(s: State, key: PrKey, c: Comment, owner: Owner)
    requires MarksInv(s) && ClaimsInv(s)
    ensures var s' := TryClaim(s, key, c, owner); MarksInv(s') && ClaimsInv(s')
  {
    var r, won := RaiseAndMark(s, key, c.id), Claim(key, Life(s, key), c, owner);
    RaiseAndMarkKeepsMarks(s, key, c.id);
    RaiseAndMarkKeepsClaims(s, key, c.id);
    if Wins(s.cursors, key, c.id) {
      WinnerIsLarger(s, won);
      assert Mark(key, Life(s, key), c.id) in r.marks;
      hide MarksInv, Raise, Wins;
      ClaimsGrow(r, won);
      MarksFrame(r, TryClaim(s, key, c, owner));
    }
  }

  lemma WinnerIsLarger(s: State, won: Claim)
    requires MarksInv(s) && ClaimsInv(s) && Wins(s.cursors, won.key, won.comment.id) && won.life == Life(s, won.key)
    ensures forall i :: 0 <= i < |s.claims| && SameLifetime(s.claims[i], won) ==>
                          s.claims[i].comment.id < won.comment.id
  {
    forall i | 0 <= i < |s.claims| && SameLifetime(s.claims[i], won)
      ensures s.claims[i].comment.id < won.comment.id
    {
      var earlier := s.claims[i];
      assert Mark(earlier.key, earlier.life, earlier.comment.id) in s.marks;
    }
  }

  lemma ClaimsGrow(s: State, won: Claim)
    requires ClaimsInv(s) && Mark(won.key, won.life, won.comment.id) in s.marks
    requires forall i :: 0 <= i < |s.claims| && SameLifetime(s.claims[i], won) ==>
                           s.claims[i].comment.id < won.comment.id
    ensures ClaimsInv(s.(claims := s.claims + [won]))
  {
  }

  lemma MarksFrame(s: State, s': State)
    requires MarksInv(s) && s'.cursors == s.cursors && s'.lives == s.lives && s'.marks == s.marks
    ensures MarksInv(s')
  {
    assert forall k :: Life(s, k) == Life(s', k);
  }

  lemma PruneKeepsMarks(s: State, known: set<PrKey>)
    requires MarksInv(s)
    ensures MarksInv(PruneNext(s, known))
    ensures forall k :: Life(s, k) <= Life(PruneNext(s, known), k)
  {
  }

  /** A poll's invariant survives new claims, and dispatches of new claims. */
  lemma PollInvFrame(config: Config, s: State, s': State, t: nat, p: Poll)
    requires PollInv(config, s, t, p)
    requires s.claims <= s'.claims
    requires forall x :: x in s'.sent ==> x in s.sent || x >= |s.claims|
    ensures PollInv(config, s', t, p)
  {
    hide Wanted;
  }

  lemma HistoryFrame(s: State, s': State)
    requires MarksInv(s) && ClaimsInv(s)
    requires s'.cursors == s.cursors && s'.lives == s.lives && s'.claims == s.claims && s'.marks == s.marks
    ensures MarksInv(s') && ClaimsInv(s')
  {
    assert forall k :: Life(s, k) == Life(s', k);
  }

  lemma AppendLarger(ids: seq<nat>, n: nat)
    requires forall x :: x in ids ==> x < n
    ensures NoRepeats(ids) ==> NoRepeats(ids + [n])
    ensures Increasing(ids) ==> Increasing(ids + [n])
  {
    assert forall i :: 0 <= i < |ids| ==> ids[i] in ids;
  }

  /** Sending a claim that nothing has sent before. */
  lemma SentGrows(config: Config, s: State, s': State, claim: Claim)
    requires SentInv(config, s) && Wanted(config, claim.comment)
    requires s'.claims == s.claims + [claim] && s'.sent == s.sent + [|s.claims|]
    ensures SentInv(config, s')
  {
    hide Wanted;
    AppendLarger(s.sent, |s.claims|);
    assert forall x :: x in s'.sent ==> x in s.sent || x == |s.claims|;
    assert forall x :: x in s.sent ==> s'.claims[x] == s.claims[x];
  }

  lemma SentFrame(config: Config, s: State, s': State)
    requires SentInv(config, s) && s'.sent == s.sent && s.claims <= s'.claims
    ensures SentInv(config, s')
  {
    hide Wanted, NoRepeats;
    assert forall x :: x in s.sent ==> s'.claims[x] == s.claims[x];
  }

  /** The polls that a step does not move keep their invariants. */
  lemma PollsFrame(config: Config, s: State, s': State, moved: set<nat>)
    requires forall t :: t in s.polls ==> PollInv(config, s, t, s.polls[t])
    requires s'.polls.Keys == s.polls.Keys && forall t :: t in s.polls && t !in moved ==> s'.polls[t] == s.polls[t]
    requires s.claims <= s'.claims
    requires forall x :: x in s'.sent ==> x in s.sent || x >= |s.claims|
    ensures forall t :: t in s'.polls && t !in moved ==> PollInv(config, s', t, s'.polls[t])
  {
    hide PollInv;
    forall t | t in s'.polls && t !in moved
      ensures PollInv(config, s', t, s'.polls[t])
    {
      PollInvFrame(config, s, s', t, s.polls[t]);
    }
  }

  lemma WebhookKeepsInv(config: Config, s: State, e: Event)
    requires Inv(config, s) && ReachesClaim(config, e)
    ensures Inv(config, WebhookNext(s, e))
  {
    WebhookCommandIsWanted(config, e.comment);
    hide Wanted, FromBot, ParseChatCommand, MarksInv, ClaimsInv, Wins, Raise, SentInv, PollInv;
    TryClaimKeepsClaims(s, e.key, e.comment, ByWebhook);
    var s' := WebhookNext(s, e);
    HistoryFrame(TryClaim(s, e.key, e.comment, ByWebhook), s');
    if Wins(s.cursors, e.key, e.comment.id) {
      SentGrows(config, s, s', Claim(e.key, Life(s, e.key), e.comment, ByWebhook));
    } else {
      SentFrame(config, s, s');
    }
    PollsFrame(config, s, s', {});
  }

  lemma ScanKeepsInv(config: Config, s: State, t: nat)
    requires Inv(config, s) && Enabled(config, s, Scan(t))
    ensures Inv(config, ScanNext(config, s, t))
  {
    var p := s.polls[t];
    if p.firstSight || p.comments[p.next].id <= p.cursor {
      PassedOverKeepsInv(config, s, t);
    } else {
      ScanClaimKeepsInv(config, s, t);
    }
  }

  lemma PassedOverKeepsInv(config: Config, s: State, t: nat)
    requires Inv(config, s) && Enabled(config, s, Scan(t))
    requires s.polls[t].firstSight || s.polls[t].comments[s.polls[t].next].id <= s.polls[t].cursor
    ensures Inv(config, ScanNext(config, s, t))
  {
    hide Wanted, MarksInv, ClaimsInv, PollInv, SentInv, TryClaim, Wins;
    var p, s' := s.polls[t], ScanNext(config, s, t);
    HistoryFrame(s, s');
    SentFrame(config, s, s');
    PollsFrame(config, s, s', {t});
    PollInvFrame(config, s, s', t, p);
    MovedPoll(config, s', t, p, Max(p.maxSeen, p.comments[p.next].id));
  }

  lemma ScanClaimKeepsInv(config: Config, s: State, t: nat)
    requires Inv(config, s) && Enabled(config, s, Scan(t))
    requires !s.polls[t].firstSight && s.polls[t].comments[s.polls[t].next].id > s.polls[t].cursor
    ensures Inv(config, ScanNext(config, s, t))
  {
    hide Wanted, MarksInv, ClaimsInv, PollInv, SentInv, TryClaim, Wins;
    var p, s' := s.polls[t], ScanNext(config, s, t);
    var c := p.comments[p.next];
    var claimed := TryClaim(s, p.key, c, ByPoll(t));
    TryClaimKeepsClaims(s, p.key, c, ByPoll(t));
    TryClaimShape(s, p.key, c, ByPoll(t));
    HistoryFrame(claimed, s');
    SentFrame(config, s, s');
    PollsFrame(config, s, s', {t});
    if Wanted(config, c) && Wins(s.cursors, p.key, c.id) {
      WonClaimIsPending(config, s, s', t, p, c);
    } else {
      PollInvFrame(config, s, s', t, p);
      MovedPoll(config, s', t, p, Max(p.maxSeen, c.id));
    }
  }

  lemma TryClaimShape(s: State, key: PrKey, c: Comment, owner: Owner)
    ensures var s' := TryClaim(s, key, c, owner);
            && s'.polls == s.polls && s'.sent == s.sent && s.claims <= s'.claims
            && (Wins(s.cursors, key, c.id) ==> s'.claims == s.claims + [Claim(key, Life(s, key), c, owner)])
  {
    hide Wins;
  }

  /** A poll that reads one more comment without queueing it. */
  lemma MovedPoll(config: Config, s: State, t: nat, p: Poll, seen: nat)
    requires PollInv(config, s, t, p) && p.next < |p.comments|
    ensures PollInv(config, s, t, p.(next := p.next + 1, maxSeen := seen))
  {
    hide Wanted;
  }

  /** The poll that won a claim may queue it for dispatch. */
  lemma WonClaimIsPending(config: Config, s: State, s': State, t: nat, p: Poll, c: Comment)
    requires PollInv(config, s, t, p) && SentInv(config, s)
    requires p.phase != Listed && !p.firstSight && p.next < |p.comments| && Wanted(config, c)
    requires s'.sent == s.sent && s'.claims == s.claims + [Claim(p.key, Life(s, p.key), c, ByPoll(t))]
    ensures PollInv(config, s', t, p.(next := p.next + 1, maxSeen := Max(p.maxSeen, c.id),
                                      pending := p.pending + [|s.claims|]))
  {
    hide Wanted;
    var n := |s.claims|;
    AppendLarger(p.pending, n);
    PollInvFrame(config, s, s', t, p);
  }

  lemma SendKeepsInv(config: Config, s: State, t: nat)
    requires Inv(config, s) && Enabled(config, s, Send(t))
    ensures Inv(config, Next(config, s, Send(t)))
  {
    hide Wanted, MarksInv, ClaimsInv, PollInv;
    var s' := Next(config, s, Send(t));
    HistoryFrame(s, s');
    HeadIsUnsent(config, s, t, s.polls[t]);
    forall u | u in s'.polls
      ensures PollInv(config, s', u, s'.polls[u])
    {
      if u == t {
        SenderKeepsPollInv(config, s, s', t);
      } else {
        OtherOwnersKeepPollInv(config, s, s', t, u);
      }
    }
  }

  lemma HeadIsUnsent(config: Config, s: State, t: nat, p: Poll)
    requires PollInv(config, s, t, p) && p.pending != []
    ensures p.pending[0] < |s.claims| && p.pending[0] !in s.sent && s.claims[p.pending[0]].owner == ByPoll(t)
    ensures Wanted(config, s.claims[p.pending[0]].comment)
  {
    hide Wanted;
    assert p.pending[0] in p.pending;
  }

  lemma SenderKeepsPollInv(config: Config, s: State, s': State, t: nat)
    requires t in s.polls && PollInv(config, s, t, s.polls[t]) && s.polls[t].pending != []
    requires s'.claims == s.claims && s'.sent == s.sent + [s.polls[t].pending[0]]
    ensures PollInv(config, s', t, s.polls[t].(pending := s.polls[t].pending[1..]))
  {
    hide Wanted;
    var p := s.polls[t];
    forall x | x in p.pending[1..]
      ensures x in p.pending && x != p.pending[0]
    {
      var i :| 0 <= i < |p.pending[1..]| && p.pending[1..][i] == x;
      assert p.pending[i + 1] == x;
    }
  }

  lemma OtherOwnersKeepPollInv(config: Config, s: State, s': State, t: nat, u: nat)
    requires u in s.polls && u != t && PollInv(config, s, u, s.polls[u])
    requires t in s.polls && PollInv(config, s, t, s.polls[t]) && s.polls[t].pending != []
    requires s'.claims == s.claims && s'.sent == s.sent + [s.polls[t].pending[0]]
    ensures PollInv(config, s', u, s.polls[u])
  {
    hide Wanted;
    HeadIsUnsent(config, s, t, s.polls[t]);
    forall x | x in s.polls[u].pending
      ensures x !in s'.sent
    {
      assert s.claims[x].owner == ByPoll(u);
    }
  }

  lemma EndScanKeepsInv(config: Config, s: State, t: nat)
    requires Inv(config, s) && Enabled(config, s, EndScan(t))
    ensures Inv(config, Next(config, s, EndScan(t)))
  {
    hide Wanted, MarksInv, ClaimsInv, Raise;
    var p, s' := s.polls[t], Next(config, s, EndScan(t));
    RaiseAndMarkKeepsMarks(s, p.key, p.maxSeen);
    RaiseAndMarkKeepsClaims(s, p.key, p.maxSeen);
    HistoryFrame(if p.firstSight then RaiseAndMark(s, p.key, p.maxSeen) else s, s');
    forall u | u in s'.polls
      ensures PollInv(config, s', u, s'.polls[u])
    {
      PollInvFrame(config, s, s', u, s.polls[u]);
    }
  }

  lemma RaiseAndMarkKeepsClaims(s: State, key: PrKey, value: nat)
    requires ClaimsInv(s)
    ensures ClaimsInv(RaiseAndMark(s, key, value))
  {
  }

  lemma PruneKeepsInv(config: Config, s: State, known: set<PrKey>)
    requires Inv(config, s)
    ensures Inv(config, PruneNext(s, known))
  {
    PruneKeepsMarks(s, known);
    var s' := PruneNext(s, known);
    hide Wanted, MarksInv, Retain, Life;
    forall u | u in s'.polls
      ensures PollInv(config, s', u, s'.polls[u])
    {
      PollInvFrame(config, s, s', u, s.polls[u]);
    }
  }

  /** Steps of a poll that touch nothing shared. */
  lemma LocalStepKeepsInv(config: Config, s: State, step: Step)
    requires Inv(config, s) && Enabled(config, s, step) && (step.List? || step.Snapshot? || step.Finish?)
    ensures Inv(config, Next(config, s, step))
  {
    hide Wanted, MarksInv, ClaimsInv;
    var s' := Next(config, s, step);
    HistoryFrame(s, s');
    forall u | u in s'.polls && u in s.polls && s'.polls[u] == s.polls[u]
      ensures PollInv(config, s', u, s'.polls[u])
    {
      PollInvFrame(config, s, s', u, s.polls[u]);
    }
  }

  lemma StepKeepsInv(config: Config, s: State, step: Step)
    requires Inv(config, s)
    ensures Inv(config, Next(config, s, step))
  {
    hide Inv;
    if Enabled(config, s, step) {
      match step
      case Webhook(e) => WebhookKeepsInv(config, s, e);
      case Scan(t) => ScanKeepsInv(config, s, t);
      case EndScan(t) => EndScanKeepsInv(config, s, t);
      case Send(t) => SendKeepsInv(config, s, t);
      case Prune(known) => PruneKeepsInv(config, s, known);
      case _ => LocalStepKeepsInv(config, s, step);
    }
  }

  lemma {:induction false} RunKeepsInv(config: Config, steps: seq<Step>)
    ensures Inv(config, Run(config, steps))
  {
    if steps != [] {
      RunKeepsInv(config, steps[..|steps| - 1]);
      StepKeepsInv(config, Run(config, steps[..|steps| - 1]), steps[|steps| - 1]);
    }
  }

  // ----- Safety over whole runs -----

  /** Of the claims won in one lifetime of a PR's cursor entry, webhook and pollers together
      dispatch at most one for each comment. A claim may be dispatched after a prune has ended
      the lifetime in which it was won. */
  lemma AtMostOncePerLifetime(config: Config, steps: seq<Step>, i: nat, j: nat)
    requires i < j < |Run(config, steps).sent|
    ensures var s := Run(config, steps);
            && s.sent[i] < |s.claims| && s.sent[j] < |s.claims|
            && var a, b := s.claims[s.sent[i]], s.claims[s.sent[j]];
               SameLifetime(a, b) ==> a.comment.id != b.comment.id
  {
    RunKeepsInv(config, steps);
    var s := Run(config, steps);
    hide Run, MarksInv, Wanted;
    assert s.sent[i] in s.sent && s.sent[j] in s.sent;
    assert s.sent[i] != s.sent[j];
  }

  /** Nothing of the bot's own is ever dispatched, nor anything that does not mention it. */
  lemma DispatchedAreUserMentions(config: Config, steps: seq<Step>, i: nat)
    requires i < |Run(config, steps).sent|
    ensures var s := Run(config, steps);
            && s.sent[i] < |s.claims|
            && var c := s.claims[s.sent[i]].comment;
               && !EqIgnoreAsciiCase(c.login, config.botLogin)
               && (|| ContainsIgnoreAsciiCase(c.body, "@" + config.botName)
                   || (config.botName == "auto-review" && ContainsIgnoreAsciiCase(c.body, "@auto_review")))
  {
    RunKeepsInv(config, steps);
    hide Run, MarksInv, ClaimsInv, EqIgnoreAsciiCase, ContainsIgnoreAsciiCase;
    assert Run(config, steps).sent[i] in Run(config, steps).sent;
  }

  /** Webhook event `e` was among the steps. */
  predicate WasReceived(steps: seq<Step>, e: Event) {
    Webhook(e) in steps
  }

  /** What the webhook handler claims comes from an event for a comment just created on a pull
      request, by a user, with a command in it. */
  lemma {:induction false} WebhookClaimsAreCommands(config: Config, steps: seq<Step>, c: Claim)
    requires c in Run(config, steps).claims && c.owner == ByWebhook
    ensures WasReceived(steps, Event(true, true, c.key, c.comment))
    ensures !EqIgnoreAsciiCase(c.comment.login, config.botLogin)
    ensures ParseChatCommand(c.comment.body, config.botName) != NotMentioned
  {
    hide ParseChatCommand, EqIgnoreAsciiCase, Wanted, Wins, Raise;
    if steps != [] {
      var n := |steps| - 1;
      if c in Run(config, steps[..n]).claims {
        WebhookClaimsAreCommands(config, steps[..n], c);
      } else {
        NewWebhookClaim(config, Run(config, steps[..n]), steps[n], c);
      }
    }
  }

  lemma NewWebhookClaim(config: Config, s: State, step: Step, c: Claim)
    requires c !in s.claims && c in Next(config, s, step).claims && c.owner == ByWebhook
    ensures step == Webhook(Event(true, true, c.key, c.comment)) && ReachesClaim(config, step.event)
  {
    hide ParseChatCommand, EqIgnoreAsciiCase, Wanted, Wins, Raise;
  }

  predicate WasListed(steps: seq<Step>, t: nat, key: PrKey, comments: seq<Comment>) {
    List(t, key, comments) in steps
  }

  lemma {:induction false} PollsAreListed(config: Config, steps: seq<Step>, t: nat)
    requires t in Run(config, steps).polls
    ensures var p := Run(config, steps).polls[t];
            p.next <= |p.comments| && WasListed(steps, t, p.key, p.comments)
  {
    hide Wanted, ReachesClaim, TryClaim, Raise;
    if steps != [] {
      var n := |steps| - 1;
      RunKeepsInv(config, steps);
      assert PollInv(config, Run(config, steps), t, Run(config, steps).polls[t]);
      hide Inv, PollInv;
      var before, after := Run(config, steps[..n]), Run(config, steps);
      StepKeepsListing(config, before, steps[n], t);
      if t in before.polls {
        PollsAreListed(config, steps[..n], t);
      }
    }
  }

  lemma StepKeepsListing(config: Config, s: State, step: Step, t: nat)
    requires t in Next(config, s, step).polls
    ensures var p := Next(config, s, step).polls[t];
            || step == List(t, p.key, p.comments)
            || (t in s.polls && s.polls[t].key == p.key && s.polls[t].comments == p.comments)
  {
    hide Wanted, ReachesClaim, Wins, Raise;
  }

  /** What a pass claims stands in a listing that it was given for that PR. */
  lemma {:induction false} PollClaimsAreListed(config: Config, steps: seq<Step>, c: Claim)
    requires c in Run(config, steps).claims && c.owner.ByPoll?
    ensures exists comments :: WasListed(steps, c.owner.task, c.key, comments) && c.comment in comments
  {
    hide Wanted, Wins, Raise, ReachesClaim;
    if steps != [] {
      var n := |steps| - 1;
      var s := Run(config, steps[..n]);
      if c in s.claims {
        PollClaimsAreListed(config, steps[..n], c);
        var comments :| WasListed(steps[..n], c.owner.task, c.key, comments) && c.comment in comments;
        assert WasListed(steps, c.owner.task, c.key, comments);
      } else {
        NewPollClaim(config, s, steps[n], c);
        PollsAreListed(config, steps[..n], c.owner.task);
        assert WasListed(steps, c.owner.task, c.key, s.polls[c.owner.task].comments);
      }
    }
  }

  lemma NewPollClaim(config: Config, s: State, step: Step, c: Claim)
    requires c !in s.claims && c in Next(config, s, step).claims && c.owner.ByPoll?
    ensures var t := c.owner.task;
            t in s.polls && s.polls[t].key == c.key && c.comment in s.polls[t].comments
  {
    hide ParseChatCommand, EqIgnoreAsciiCase, Wanted, Wins, Raise;
  }

  /** A claim wins exactly when its id is above every id claimed or seeded so far in the
      current lifetime of the entry; an id of 0 never wins. */
  lemma ClaimWinsIffAboveAllMarks(config: Config, steps: seq<Step>, key: PrKey, id: nat)
    ensures var s := Run(config, steps);
            Wins(s.cursors, key, id) <==>
              id > 0 && forall m :: m in s.marks && m.key == key && m.life == Life(s, key) ==> m.value < id
  {
    RunKeepsInv(config, steps);
    var s := Run(config, steps);
    hide Run, ClaimsInv, Wanted;
    if key in s.cursors {
      assert Mark(key, Life(s, key), s.cursors[key]) in s.marks;
    }
  }

  /** A comment claimed once can be claimed again only after its entry was pruned. */
  lemma ReclaimOnlyAfterPrune(config: Config, steps: seq<Step>, c: Claim)
    requires c in Run(config, steps).claims
    requires Wins(Run(config, steps).cursors, c.key, c.comment.id)
    ensures c.life < Life(Run(config, steps), c.key)
  {
    RunKeepsInv(config, steps);
    ClaimWinsIffAboveAllMarks(config, steps, c.key, c.comment.id);
  }

  /** And after a prune it can: the documented at-most-once holds per lifetime only. The
      same webhook before and after a prune of its PR is dispatched twice. */
  lemma PruneAllowsASecondDispatch(config: Config, s: State, e: Event, known: set<PrKey>)
    requires ReachesClaim(config, e) && e.comment.id > 0 && e.key !in s.cursors && e.key !in known
    ensures var s1 := Next(config, s, Webhook(e));
            var s2 := Next(config, s1, Prune(known));
            var s3 := Next(config, s2, Webhook(e));
            var n := |s.claims|;
            && s3.claims == s.claims + [Claim(e.key, Life(s, e.key), e.comment, ByWebhook),
                                        Claim(e.key, Life(s, e.key) + 1, e.comment, ByWebhook)]
            && s3.sent == s.sent + [n, n + 1]
  {
    hide *;
    var s1 := Next(config, s, Webhook(e));
    FirstWin(config, s, e);
    PruneForgets(config, s1, e.key, known);
    FirstWin(config, Next(config, s1, Prune(known)), e);
  }

  /** Every prune of the run knows the PR. */
  predicate AlwaysKnown(steps: seq<Step>, key: PrKey) {
    forall i :: 0 <= i < |steps| && steps[i].Prune? ==> key in steps[i].known
  }

  lemma {:induction false} KnownLivesOnce(config: Config, steps: seq<Step>, key: PrKey)
    requires AlwaysKnown(steps, key)
    ensures Life(Run(config, steps), key) == 0
  {
    if steps != [] {
      var n := |steps| - 1;
      KnownLivesOnce(config, steps[..n], key);
      KnownKeepsLife(config, Run(config, steps[..n]), steps[n], key);
    }
  }

  lemma KnownKeepsLife(config: Config, s: State, step: Step, key: PrKey)
    requires step.Prune? ==> key in step.known
    ensures Life(Next(config, s, step), key) == Life(s, key)
  {
    hide Wanted, ReachesClaim, Wins, Raise;
  }

  lemma ClaimsFallInPastLives(config: Config, steps: seq<Step>, c: Claim)
    requires c in Run(config, steps).claims
    ensures c.life <= Life(Run(config, steps), c.key)
  {
    RunKeepsInv(config, steps);
    hide Run, SentInv, Life, Wanted;
  }

  /** While a PR stays known to every prune, no comment of it is dispatched twice. */
  lemma AtMostOnceWhileKnown(config: Config, steps: seq<Step>, key: PrKey, i: nat, j: nat)
    requires AlwaysKnown(steps, key) && i < j < |Run(config, steps).sent|
    ensures var s := Run(config, steps);
            && s.sent[i] < |s.claims| && s.sent[j] < |s.claims|
            && var a, b := s.claims[s.sent[i]], s.claims[s.sent[j]];
               a.key == key && b.key == key ==> a.comment.id != b.comment.id
  {
    hide Run, Life, AlwaysKnown;
    AtMostOncePerLifetime(config, steps, i, j);
    KnownLivesOnce(config, steps, key);
    var s := Run(config, steps);
    ClaimsFallInPastLives(config, steps, s.claims[s.sent[i]]);
    ClaimsFallInPastLives(config, steps, s.claims[s.sent[j]]);
  }

  lemma PruneForgets(config: Config, s: State, key: PrKey, known: set<PrKey>)
    requires key in s.cursors && key !in known
    ensures var s' := Next(config, s, Prune(known));
            && key !in s'.cursors && Life(s', key) == Life(s, key) + 1
            && s'.claims == s.claims && s'.sent == s.sent
  {
  }

  lemma FirstWin(config: Config, s: State, e: Event)
    requires ReachesClaim(config, e) && e.comment.id > 0 && e.key !in s.cursors
    ensures var s' := Next(config, s, Webhook(e));
            && s'.claims == s.claims + [Claim(e.key, Life(s, e.key), e.comment, ByWebhook)]
            && s'.sent == s.sent + [|s.claims|]
            && e.key in s'.cursors && Life(s', e.key) == Life(s, e.key)
  {
    hide ReachesClaim;
  }

  /** History is only appended to, no lifetime gets shorter, and within a lifetime the
      cursor is neither lowered nor dropped. */
  predicate Advances(s: State, s': State, key: PrKey) {
    && s.claims <= s'.claims && s.sent <= s'.sent && s.marks <= s'.marks
    && Life(s, key) <= Life(s', key)
    && (key in s.cursors && Life(s', key) == Life(s, key) ==>
          key in s'.cursors && s.cursors[key] <= s'.cursors[key])
  }

  lemma TryClaimAdvances(s: State, k: PrKey, c: Comment, owner: Owner, key: PrKey)
    ensures Advances(s, TryClaim(s, k, c, owner), key)
  {
  }

  lemma StepOnlyAdvances(config: Config, s: State, step: Step, key: PrKey)
    ensures Advances(s, Next(config, s, step), key)
  {
    hide Wanted, ReachesClaim, Wins, Raise, TryClaim;
    if Enabled(config, s, step) {
      match step
      case Webhook(e) => TryClaimAdvances(s, e.key, e.comment, ByWebhook, key);
      case Scan(t) =>
        TryClaimAdvances(s, s.polls[t].key, s.polls[t].comments[s.polls[t].next], ByPoll(t), key);
      case EndScan(t) => RaiseAdvances(s, s.polls[t].key, s.polls[t].maxSeen, key);
      case _ =>
    }
  }

  lemma RaiseAdvances(s: State, k: PrKey, value: nat, key: PrKey)
    ensures Advances(s, RaiseAndMark(s, k, value), key)
  {
  }

  lemma {:induction false} RunOnlyAdvances(config: Config, steps: seq<Step>, n: nat, m: nat, key: PrKey)
    requires n <= m <= |steps|
    ensures Advances(Run(config, steps[..n]), Run(config, steps[..m]), key)
  {
    hide Advances, Next, Life, Run;
    if n < m {
      RunOnlyAdvances(config, steps, n, m - 1, key);
      RunOneMore(config, steps, m);
      StepOnlyAdvances(config, Run(config, steps[..m - 1]), steps[m - 1], key);
      AdvancesTransitive(Run(config, steps[..n]), Run(config, steps[..m - 1]), Run(config, steps[..m]), key);
    } else {
      AdvancesReflexive(Run(config, steps[..n]), key);
    }
  }

  lemma RunOneMore(config: Config, steps: seq<Step>, m: nat)
    requires 0 < m <= |steps|
    ensures Run(config, steps[..m]) == Next(config, Run(config, steps[..m - 1]), steps[m - 1])
  {
    hide Next;
    assert steps[..m][..m - 1] == steps[..m - 1];
  }

  lemma AdvancesReflexive(s: State, key: PrKey)
    ensures Advances(s, s, key)
  {
  }

  lemma AdvancesTransitive(a: State, b: State, c: State, key: PrKey)
    requires Advances(a, b, key) && Advances(b, c, key)
    ensures Advances(a, c, key)
  {
    hide Life;
  }

  predicate IsStepOf(step: Step, t: nat) {
    !step.Webhook? && !step.Prune? && step.task == t
  }

  /** A pass that found no cursor entry claims nothing and dispatches nothing, and its
      seed does not lower a cursor that a webhook has set meanwhile. */
  lemma FirstSightPassIsSilent(config: Config, steps: seq<Step>, t: nat, step: Step)
    requires t in Run(config, steps).polls && Run(config, steps).polls[t].firstSight && IsStepOf(step, t)
    ensures var s, s' := Run(config, steps), Next(config, Run(config, steps), step);
            && s'.claims == s.claims && s'.sent == s.sent
            && forall k :: k in s.cursors ==> k in s'.cursors && s.cursors[k] <= s'.cursors[k]
  {
    RunKeepsInv(config, steps);
    var s := Run(config, steps);
    assert PollInv(config, s, t, s.polls[t]);
    hide Run, Wanted, MarksInv, ClaimsInv;
  }

  // ----- A pass with nothing interleaved is Poller.ChatPoller.PollPr -----

  function Scans(config: Config, s: State, t: nat, n: nat): State {
    if n == 0 then s else Next(config, Scans(config, s, t, n - 1), Scan(t))
  }

  function Sends(config: Config, s: State, t: nat, n: nat): State {
    if n == 0 then s else Next(config, Sends(config, s, t, n - 1), Send(t))
  }

  /** The claims queued by a poll are for these comments, in this order. */
  ghost predicate PendingFor(s: State, pending: seq<nat>, comments: seq<Comment>) {
    && |pending| == |comments|
    && forall i :: 0 <= i < |pending| ==> pending[i] < |s.claims| && s.claims[pending[i]].comment == comments[i]
  }

  /** A poll that has just taken its snapshot of an existing entry. */
  predicate FreshScan(s: State, t: nat) {
    && t in s.polls
    && var p := s.polls[t];
       && p == Poll(p.key, p.comments, Scanning, p.cursor, false, p.cursor, 0, [])
       && p.key in s.cursors && s.cursors[p.key] == p.cursor
  }

  /** The state `s'` that `n` scan steps lead to from `s`. */
  ghost predicate AfterScans(config: Config, s: State, t: nat, n: nat, s': State)
    requires FreshScan(s, t) && n <= |s.polls[t].comments|
  {
    var p, seen := s.polls[t], MaxSeen(s.polls[t].comments, s.polls[t].cursor, n);
    && t in s'.polls
    && s'.cursors == s.cursors[p.key := seen]
    && s'.sent == s.sent
    && s'.polls[t] == p.(next := n, maxSeen := seen, pending := s'.polls[t].pending)
    && s'.polls == s.polls[t := s'.polls[t]]
    && PendingFor(s', s'.polls[t].pending, Selected(config, p.comments, p.cursor, n))
  }

  lemma {:induction false} QuietScans(config: Config, s: State, t: nat, n: nat)
    requires FreshScan(s, t) && n <= |s.polls[t].comments|
    ensures AfterScans(config, s, t, n, Scans(config, s, t, n))
  {
    var p := s.polls[t];
    if n > 0 {
      QuietScans(config, s, t, n - 1);
      OneMoreScan(config, s, t, n, Scans(config, s, t, n - 1));
    } else {
      assert s.cursors[p.key := p.cursor] == s.cursors;
      assert s.polls[t := p] == s.polls;
    }
  }

  lemma OneMoreScan(config: Config, s: State, t: nat, n: nat, before: State)
    requires FreshScan(s, t) && 0 < n <= |s.polls[t].comments|
    requires AfterScans(config, s, t, n - 1, before)
    ensures AfterScans(config, s, t, n, Next(config, before, Scan(t)))
  {
    hide Next, IsNewMaximum, Wanted, Selected, MaxSeen, PendingFor;
    var p, after := s.polls[t], Next(config, before, Scan(t));
    ScannedOne(config, p.comments, p.cursor, n);
    MaxSeenIsMaximum(p.comments, p.cursor, n - 1);
    QuietScan(config, before, t);
    var selected, queue := Selected(config, p.comments, p.cursor, n - 1), before.polls[t].pending;
    PendingGrows(before, after, queue, selected);
    assert queue + [] == queue && selected + [] == selected;
    assert after.polls == s.polls[t := after.polls[t]];
  }

  lemma ScannedOne(config: Config, comments: seq<Comment>, cursor: nat, n: nat)
    requires 0 < n <= |comments|
    ensures var c, seen := comments[n - 1], MaxSeen(comments, cursor, n - 1);
            && MaxSeen(comments, cursor, n) == Max(seen, c.id)
            && Selected(config, comments, cursor, n)
               == Selected(config, comments, cursor, n - 1) + if c.id > seen && Wanted(config, c) then [c] else []
  {
    NewMaximumIffAboveMaxSeen(comments, cursor, n - 1);
    hide IsNewMaximum, Wanted;
  }

  lemma PendingGrows(s: State, s': State, pending: seq<nat>, comments: seq<Comment>)
    requires PendingFor(s, pending, comments) && s.claims <= s'.claims
    ensures PendingFor(s', pending, comments)
    ensures |s.claims| < |s'.claims| ==>
              PendingFor(s', pending + [|s.claims|], comments + [s'.claims[|s.claims|].comment])
  {
  }

  /** What one scan step does. */
  lemma QuietScan(config: Config, s: State, t: nat)
    requires Enabled(config, s, Scan(t)) && !s.polls[t].firstSight
    requires s.polls[t].key in s.cursors && s.cursors[s.polls[t].key] == s.polls[t].maxSeen >= s.polls[t].cursor
    ensures var p, s' := s.polls[t], Next(config, s, Scan(t));
            var c := p.comments[p.next];
            var won := c.id > p.maxSeen && Wanted(config, c);
            var seen := Max(p.maxSeen, c.id);
            && s'.cursors == s.cursors[p.key := seen]
            && s'.sent == s.sent && s.claims <= s'.claims
            && s'.polls == s.polls[t := p.(next := p.next + 1, maxSeen := seen,
                                           pending := p.pending + if won then [|s.claims|] else [])]
            && (won ==> |s'.claims| > |s.claims| && s'.claims[|s.claims|].comment == c)
  {
    hide Wanted;
    var p := s.polls[t];
    assert p.pending + [] == p.pending;
    assert s.cursors[p.key := p.maxSeen] == s.cursors;
  }

  lemma {:induction false} QuietSends(config: Config, s: State, t: nat, n: nat)
    requires t in s.polls && s.polls[t].phase == Sending && n <= |s.polls[t].pending|
    ensures var p, s' := s.polls[t], Sends(config, s, t, n);
            s' == s.(sent := s.sent + p.pending[..n], polls := s.polls[t := p.(pending := p.pending[n..])])
  {
    hide Next;
    var p := s.polls[t];
    if n > 0 {
      QuietSends(config, s, t, n - 1);
      var before := Sends(config, s, t, n - 1);
      OneSend(config, before, t);
      assert s.sent + p.pending[..n - 1] + [p.pending[n - 1]] == s.sent + p.pending[..n];
      assert p.pending[n - 1..][1..] == p.pending[n..];
      assert before.polls[t := p.(pending := p.pending[n..])] == s.polls[t := p.(pending := p.pending[n..])];
    } else {
      assert s.sent + p.pending[..0] == s.sent;
      assert s.polls[t := p.(pending := p.pending[0..])] == s.polls;
    }
  }

  lemma OneSend(config: Config, s: State, t: nat)
    requires Enabled(config, s, Send(t))
    ensures var p := s.polls[t];
            Next(config, s, Send(t))
            == s.(polls := s.polls[t := p.(pending := p.pending[1..])], sent := s.sent + [p.pending[0]])
  {
  }

  /** A poll that has just found no entry for its PR. */
  predicate FirstScan(s: State, t: nat) {
    && t in s.polls
    && var p := s.polls[t]; p == Poll(p.key, p.comments, Scanning, 0, true, 0, 0, [])
  }

  /** The scan of a first-sight pass touches nothing but its own maximum. */
  lemma {:induction false} FirstScans(config: Config, s: State, t: nat, n: nat)
    requires FirstScan(s, t) && n <= |s.polls[t].comments|
    ensures var p := s.polls[t];
            Scans(config, s, t, n)
            == s.(polls := s.polls[t := p.(next := n, maxSeen := MaxSeen(p.comments, 0, n))])
  {
    hide TryClaim, Wanted;
    var p := s.polls[t];
    if n > 0 {
      FirstScans(config, s, t, n - 1);
    } else {
      assert s.polls[t := p] == s.polls;
    }
  }

  /** The comments that `PollPr` dispatches: none on first sight. */
  function Dispatched(config: Config, cursors: Cursors, key: PrKey, comments: seq<Comment>): seq<Comment> {
    if key in cursors then Selected(config, comments, cursors[key], |comments|) else []
  }

  /** What is left when pass `t` is over, having dispatched `queue`. */
  ghost predicate PassIsOver(config: Config, s: State, key: PrKey, comments: seq<Comment>, queue: seq<nat>, s': State) {
    && s'.sent == s.sent + queue
    && PendingFor(s', queue, Dispatched(config, s.cursors, key, comments))
    && s'.cursors == s.cursors[key := MaxSeen(comments, Cursor(s.cursors, key), |comments|)]
    && s'.polls == s.polls
  }

  /** List, snapshot, scan, dispatch, with no other step in between: the pass dispatches the
      wanted new maxima in listing order, or nothing on first sight, leaves the cursor at the
      greatest id seen, and is gone. */
  lemma QuietPassRefinesPollPr(config: Config, s: State, t: nat, key: PrKey, comments: seq<Comment>)
    requires t !in s.polls
    ensures var listed := Next(config, s, List(t, key, comments));
            var scanned := Scans(config, Next(config, listed, Snapshot(t)), t, |comments|);
            var ended := Next(config, scanned, EndScan(t));
            && t in ended.polls
            && var queue := ended.polls[t].pending;
               var s' := Next(config, Sends(config, ended, t, |queue|), Finish(t));
               PassIsOver(config, s, key, comments, queue, s')
  {
    if key in s.cursors {
      KnownPassRefinesPollPr(config, s, t, key, comments);
    } else {
      FirstPassRefinesPollPr(config, s, t, key, comments);
    }
  }

  lemma FirstPassRefinesPollPr(config: Config, s: State, t: nat, key: PrKey, comments: seq<Comment>)
    requires t !in s.polls && key !in s.cursors
    ensures var listed := Next(config, s, List(t, key, comments));
            var scanned := Scans(config, Next(config, listed, Snapshot(t)), t, |comments|);
            var ended := Next(config, scanned, EndScan(t));
            && t in ended.polls && ended.polls[t].pending == []
            && PassIsOver(config, s, key, comments, [], Next(config, ended, Finish(t)))
  {
    hide Wanted, Selected, MaxSeen;
    var listed := Next(config, s, List(t, key, comments));
    var started := Next(config, listed, Snapshot(t));
    FirstScans(config, started, t, |comments|);
    var ended := Next(config, Scans(config, started, t, |comments|), EndScan(t));
    var s' := Next(config, ended, Finish(t));
    assert s'.polls == s.polls;
    assert s'.sent == s.sent + [];
  }

  lemma KnownPassRefinesPollPr(config: Config, s: State, t: nat, key: PrKey, comments: seq<Comment>)
    requires t !in s.polls && key in s.cursors
    ensures var listed := Next(config, s, List(t, key, comments));
            var scanned := Scans(config, Next(config, listed, Snapshot(t)), t, |comments|);
            var ended := Next(config, scanned, EndScan(t));
            && t in ended.polls
            && var queue := ended.polls[t].pending;
               var s' := Next(config, Sends(config, ended, t, |queue|), Finish(t));
               PassIsOver(config, s, key, comments, queue, s')
  {
    hide Wanted;
    var listed := Next(config, s, List(t, key, comments));
    var started := Next(config, listed, Snapshot(t));
    QuietScans(config, started, t, |comments|);
    var scanned := Scans(config, started, t, |comments|);
    var ended := Next(config, scanned, EndScan(t));
    var queue := ended.polls[t].pending;
    QuietSends(config, ended, t, |queue|);
    assert queue[|queue|..] == [];
    var s' := Next(config, Sends(config, ended, t, |queue|), Finish(t));
    assert s'.polls == s.polls;
    assert s'.sent == s.sent + queue;
  }
}
