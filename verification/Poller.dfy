/** The shared comment cursors and one polling pass, crates/ar-gateway/src/poller.rs.
`ClaimProtocol` lets webhooks and other passes interleave with these steps. */
module Poller {
  import opened Basics
  import opened Text
  import opened Command

  datatype PrKey = PrKey(owner: string, repo: string, number: nat)

  datatype Comment = Comment(id: nat, login: string, body: string)

  datatype Config = Config(botLogin: string, botName: string)

  type Cursors = map<PrKey, nat>

  /** The cursor of a PR; a missing entry counts as 0. */
  function Cursor(cursors: Cursors, key: PrKey): nat {
    if key in cursors then cursors[key] else 0
  }

  predicate Wins(cursors: Cursors, key: PrKey, id: nat) {
    id > Cursor(cursors, key)
  }

  /** A claim or a seed inserts the entry even when it does not move the cursor. */
  function Raise(cursors: Cursors, key: PrKey, id: nat): Cursors {
    cursors[key := Max(Cursor(cursors, key), id)]
  }

  function Retain(cursors: Cursors, known: set<PrKey>): Cursors {
    map k | k in cursors && k in known :: cursors[k]
  }

  predicate FromBot(config: Config, c: Comment) {
    EqIgnoreAsciiCase(c.login, config.botLogin)
  }

  /** A new comment that the poller hands to the chat handler if it wins the claim. */
  predicate Wanted(config: Config, c: Comment) {
    !FromBot(config, c) && PreFilter(c.body, config.botName)
  }

  /** The mutex-protected map that the webhook handler and the poller share. */
  class CommentCursors {
    var cursors: Cursors

    constructor ()
      ensures cursors == map[]
    {
      cursors := map[];
    }

    method Claim(key: PrKey, id: nat) returns (won: bool)
      modifies this
      ensures won == Wins(old(cursors), key, id)
      ensures cursors == Raise(old(cursors), key, id)
      ensures won <==> id > if key in old(cursors) then old(cursors)[key] else 0
      ensures key in cursors && cursors[key] == if won || key !in old(cursors) then id else old(cursors)[key]
      ensures cursors - {key} == old(cursors) - {key}
    {
      if key !in cursors {
        cursors := cursors[key := 0];
      }
      if id <= cursors[key] {
        return false;
      }
      cursors := cursors[key := id];
      won := true;
    }

    method SeedMonotonic(key: PrKey, maxSeen: nat)
      modifies this
      ensures cursors == Raise(old(cursors), key, maxSeen)
      ensures key in cursors && cursors - {key} == old(cursors) - {key}
      ensures key in old(cursors) ==> cursors[key] == Max(old(cursors)[key], maxSeen)
      ensures key !in old(cursors) ==> cursors[key] == maxSeen
    {
      if key !in cursors {
        cursors := cursors[key := 0];
      }
      if maxSeen > cursors[key] {
        cursors := cursors[key := maxSeen];
      }
    }

    method Prune(known: set<PrKey>)
      modifies this
      ensures cursors == Retain(old(cursors), known)
      ensures forall k :: k in cursors <==> k in old(cursors) && k in known
      ensures forall k :: k in cursors ==> cursors[k] == old(cursors)[k]
    {
      cursors := map k | k in cursors && k in known :: cursors[k];
    }
  }

  // ----- What a pass over one PR should do -----

  /** Above the cursor, and above every id listed before it. */
  predicate IsNewMaximum(comments: seq<Comment>, cursor: nat, j: nat)
    requires j < |comments|
  {
    comments[j].id > cursor && forall i :: 0 <= i < j ==> comments[i].id < comments[j].id
  }

  function MaxSeen(comments: seq<Comment>, cursor: nat, n: nat): nat
    requires n <= |comments|
  {
    if n == 0 then cursor else Max(MaxSeen(comments, cursor, n - 1), comments[n - 1].id)
  }

  /** The wanted new maxima among the first `n` listed comments, in listing order. */
  function Selected(config: Config, comments: seq<Comment>, cursor: nat, n: nat): seq<Comment>
    requires n <= |comments|
  {
    if n == 0 then []
    else
      Selected(config, comments, cursor, n - 1)
      + if IsNewMaximum(comments, cursor, n - 1) && Wanted(config, comments[n - 1])
        then [comments[n - 1]] else []
  }

  lemma {:induction false} MaxSeenIsMaximum(comments: seq<Comment>, cursor: nat, n: nat)
    requires n <= |comments|
    ensures cursor <= MaxSeen(comments, cursor, n)
    ensures forall i :: 0 <= i < n ==> comments[i].id <= MaxSeen(comments, cursor, n)
    ensures MaxSeen(comments, cursor, n) == cursor
            || exists i :: 0 <= i < n && comments[i].id == MaxSeen(comments, cursor, n)
  {
    if n > 0 {
      MaxSeenIsMaximum(comments, cursor, n - 1);
    }
  }

  lemma NewMaximumIffAboveMaxSeen(comments: seq<Comment>, cursor: nat, j: nat)
    requires j < |comments|
    ensures IsNewMaximum(comments, cursor, j) <==> comments[j].id > MaxSeen(comments, cursor, j)
  {
    MaxSeenIsMaximum(comments, cursor, j);
  }

  function Ids(comments: seq<Comment>): seq<nat> {
    seq(|comments|, i requires 0 <= i < |comments| => comments[i].id)
  }

  predicate Increasing(ids: seq<nat>) {
    forall i, j :: 0 <= i < j < |ids| ==> ids[i] < ids[j]
  }

  predicate IsSelected(config: Config, comments: seq<Comment>, cursor: nat, j: nat)
    requires j < |comments|
  {
    IsNewMaximum(comments, cursor, j) && Wanted(config, comments[j])
  }

  /** Exactly the wanted new maxima are selected. */
  lemma {:induction false} SelectedExactly(config: Config, comments: seq<Comment>, cursor: nat, n: nat)
    requires n <= |comments|
    ensures forall c :: c in Selected(config, comments, cursor, n) <==>
              exists j :: 0 <= j < n && comments[j] == c && IsSelected(config, comments, cursor, j)
  {
    hide Wanted, IsNewMaximum;
    if n > 0 {
      SelectedExactly(config, comments, cursor, n - 1);
      var before := Selected(config, comments, cursor, n - 1);
      if IsSelected(config, comments, cursor, n - 1) {
        assert Selected(config, comments, cursor, n) == before + [comments[n - 1]];
      } else {
        assert Selected(config, comments, cursor, n) == before;
      }
    }
  }

  /** In terms of ids, logins and texts: a comment is dispatched if and only if its id is above the
      cursor and every id listed before it, its author is not the bot, up to ASCII case, and its
      text contains the mention or the alias. */
  lemma SelectedIff(config: Config, comments: seq<Comment>, cursor: nat, n: nat, c: Comment)
    requires n <= |comments|
    ensures c in Selected(config, comments, cursor, n) <==>
            && !EqIgnoreAsciiCase(c.login, config.botLogin)
            && (|| ContainsIgnoreAsciiCase(c.body, "@" + config.botName)
                || (config.botName == "auto-review" && ContainsIgnoreAsciiCase(c.body, "@auto_review")))
            && exists j :: 0 <= j < n && comments[j] == c && c.id > cursor
                           && forall i :: 0 <= i < j ==> comments[i].id < c.id
  {
    SelectedExactly(config, comments, cursor, n);
    hide Selected, EqIgnoreAsciiCase, ContainsIgnoreAsciiCase;
    if j :| 0 <= j < n && comments[j] == c && c.id > cursor && forall i :: 0 <= i < j ==> comments[i].id < c.id {
      assert IsNewMaximum(comments, cursor, j);
      assert IsSelected(config, comments, cursor, j) <==> Wanted(config, c);
    }
  }

  /** Each id is selected once, and in increasing order. */
  lemma {:induction false} SelectedIncreasing(config: Config, comments: seq<Comment>, cursor: nat, n: nat)
    requires n <= |comments|
    ensures Increasing(Ids(Selected(config, comments, cursor, n)))
    ensures forall i :: 0 <= i < |Selected(config, comments, cursor, n)| ==>
              Selected(config, comments, cursor, n)[i].id <= MaxSeen(comments, cursor, n)
  {
    hide Wanted, IsNewMaximum;
    if n > 0 {
      SelectedIncreasing(config, comments, cursor, n - 1);
      NewMaximumIffAboveMaxSeen(comments, cursor, n - 1);
      var before := Selected(config, comments, cursor, n - 1);
      if IsSelected(config, comments, cursor, n - 1) {
        assert Selected(config, comments, cursor, n) == before + [comments[n - 1]];
        assert forall i :: 0 <= i < |before| ==> Ids(before)[i] == before[i].id;
      } else {
        assert Selected(config, comments, cursor, n) == before;
      }
    }
  }

  /** No listing has a new maximum once the cursor is past all of it. */
  lemma {:induction false} NothingNewSelectsNothing(config: Config, comments: seq<Comment>, cursor: nat, n: nat)
    requires n <= |comments|
    requires forall i :: 0 <= i < n ==> comments[i].id <= cursor
    ensures Selected(config, comments, cursor, n) == []
    ensures MaxSeen(comments, cursor, n) == cursor
  {
    if n > 0 {
      NothingNewSelectsNothing(config, comments, cursor, n - 1);
    }
  }

  /** A second pass over the same listing dispatches nothing and moves nothing. */
  lemma SecondPassIsSilent(config: Config, comments: seq<Comment>, cursor: nat)
    ensures var seen := MaxSeen(comments, cursor, |comments|);
            && Selected(config, comments, seen, |comments|) == []
            && MaxSeen(comments, seen, |comments|) == seen
  {
    MaxSeenIsMaximum(comments, cursor, |comments|);
    NothingNewSelectsNothing(config, comments, MaxSeen(comments, cursor, |comments|), |comments|);
  }

  /** Whatever the webhook path would act on, the poller wants too. */
  lemma WebhookCommandIsWanted(config: Config, c: Comment)
    requires !FromBot(config, c) && ParseChatCommand(c.body, config.botName) != NotMentioned
    ensures Wanted(config, c)
  {
    PreFilterLosesNoCommand(c.body, config.botName);
  }

  // ----- The pass itself, with nothing interleaved -----

  ghost predicate IsFirstWithId(comments: seq<Comment>, id: nat, found: Option<Comment>) {
    match found
    case None => forall i :: 0 <= i < |comments| ==> comments[i].id != id
    case Some(c) =>
      exists i :: 0 <= i < |comments| && comments[i] == c && c.id == id && NoneBefore(comments, id, i)
  }

  predicate NoneBefore(comments: seq<Comment>, id: nat, i: nat)
    requires i <= |comments|
  {
    forall h :: 0 <= h < i ==> comments[h].id != id
  }

  /** `comments.iter().find(|c| c.id == id)`. */
  method FindById(comments: seq<Comment>, id: nat) returns (found: Option<Comment>)
    ensures IsFirstWithId(comments, id, found)
  {
    for i := 0 to |comments|
      invariant NoneBefore(comments, id, i)
    {
      if comments[i].id == id {
        return Some(comments[i]);
      }
    }
    found := None;
  }

  class ChatPoller {
    const config: Config
    const shared: CommentCursors

    constructor (config: Config, shared: CommentCursors)
      ensures this.config == config && this.shared == shared
    {
      this.config := config;
      this.shared := shared;
    }

    /** The scan over the listing: claims as it goes, and collects the ids to dispatch. */
    method ScanComments(key: PrKey, comments: seq<Comment>, cursor: nat)
      returns (maxSeen: nat, toDispatch: seq<nat>)
      requires key in shared.cursors && shared.cursors[key] == cursor
      modifies shared
      ensures maxSeen == MaxSeen(comments, cursor, |comments|)
      ensures shared.cursors == old(shared.cursors)[key := maxSeen]
      ensures toDispatch == Ids(Selected(config, comments, cursor, |comments|))
    {
      maxSeen, toDispatch := cursor, [];
      for n := 0 to |comments|
        invariant maxSeen == MaxSeen(comments, cursor, n) >= cursor
        invariant shared.cursors == old(shared.cursors)[key := maxSeen]
        invariant toDispatch == Ids(Selected(config, comments, cursor, n))
      {
        var c := comments[n];
        NewMaximumIffAboveMaxSeen(comments, cursor, n);
        if c.id > maxSeen {
          maxSeen := c.id;
        }
        if c.id <= cursor {
          continue;
        }
        if EqIgnoreAsciiCase(c.login, config.botLogin) {
          var _ := shared.Claim(key, c.id);
          continue;
        }
        if PreFilter(c.body, config.botName) {
          var won := shared.Claim(key, c.id);
          if won {
            toDispatch := toDispatch + [c.id];
          }
        } else {
          var _ := shared.Claim(key, c.id);
        }
      }
    }

    /** One pass over one PR. `dispatched` are the comments given to the chat handler. */
    method PollPr(key: PrKey, comments: seq<Comment>) returns (dispatched: seq<Comment>)
      modifies shared
      ensures key !in old(shared.cursors) ==> dispatched == []
      ensures key in old(shared.cursors) ==>
                dispatched == Selected(config, comments, old(shared.cursors)[key], |comments|)
      ensures shared.cursors == old(shared.cursors)[key :=
                MaxSeen(comments, Cursor(old(shared.cursors), key), |comments|)]
      ensures forall c :: c in dispatched ==> !EqIgnoreAsciiCase(c.login, config.botLogin)
    {
      var firstSight := key !in shared.cursors;
      var cursor := if firstSight then 0 else shared.cursors[key];
      var toDispatch: seq<nat> := [];
      if firstSight {
        var maxSeen := 0;
        for n := 0 to |comments|
          invariant maxSeen == MaxSeen(comments, 0, n)
        {
          if comments[n].id > maxSeen {
            maxSeen := comments[n].id;
          }
        }
        shared.SeedMonotonic(key, maxSeen);
      } else {
        var _, ids := ScanComments(key, comments, cursor);
        toDispatch := ids;
      }
      dispatched := [];
      ghost var after := shared.cursors;
      ghost var expected := Selected(config, comments, cursor, |comments|);
      for n := 0 to |toDispatch|
        invariant !firstSight ==> dispatched == expected[..n]
        invariant firstSight ==> dispatched == []
        invariant shared.cursors == after
      {
        var found := FindById(comments, toDispatch[n]);
        LookupFindsTheClaimed(config, comments, cursor, expected[n], found);
        dispatched := dispatched + [found.value];
      }
      forall c | c in dispatched
        ensures !EqIgnoreAsciiCase(c.login, config.botLogin)
      {
        SelectedIff(config, comments, cursor, |comments|, c);
      }
    }
  }

  /** The first comment listed with a claimed id is the comment that was claimed. */
  lemma LookupFindsTheClaimed(config: Config, comments: seq<Comment>, cursor: nat, c: Comment, found: Option<Comment>)
    requires c in Selected(config, comments, cursor, |comments|)
    requires IsFirstWithId(comments, c.id, found)
    ensures found == Some(c)
  {
    SelectedExactly(config, comments, cursor, |comments|);
    var j :| 0 <= j < |comments| && comments[j] == c && IsSelected(config, comments, cursor, j);
    if found.Some? {
      var i :| 0 <= i < |comments| && comments[i] == found.value && NoneBefore(comments, c.id, i);
      assert i <= j && j <= i;
    }
  }
}
