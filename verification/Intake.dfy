/** The front of the webhook handler, `handle` in crates/ar-gateway/src/webhook.rs: throttle,
signature, delivery dedup, in this order. The verdict on the signature and whether the
delivery table answers are inputs; what an event does afterwards is not modelled here. */
module Intake {
  import opened Text
  import Dedup
  import RateLimit

  /** `Malformed` stands for a signature that is empty or not hexadecimal. */
  datatype Signature = NoSignature | Mismatch | Malformed | BadSecret | Good

  datatype Request = Request(now: real, signature: Signature, event: string, delivery: Option<string>, tableUp: bool)

  datatype Response =
    | TooManyRequests
    | Unauthorized | BadRequest | InternalError
    | DuplicateOk
    | ReviewEvent | CommentEvent | Pong | Ignored

  datatype Throttle = Throttle(config: RateLimit.Config, bucket: RateLimit.Bucket)

  datatype Store = Recent(capacity: nat, order: seq<string>) | Table(rows: set<string>)

  datatype Counts = Counts(rateLimited: nat, signatureFailures: nat, pullRequest: nat, issueComment: nat,
                           ping: nat, other: nat, duplicates: nat)

  datatype Gate = Gate(throttle: Option<Throttle>, store: Option<Store>, counts: Counts)

  // ----- One request -----

  predicate Passes(t: Option<Throttle>, now: real) {
    t.Some? ==> RateLimit.Accepts(t.value.config, t.value.bucket, now)
  }

  function AfterThrottle(t: Option<Throttle>, now: real): Option<Throttle> {
    match t
    case None => None
    case Some(Throttle(c, b)) => Some(Throttle(c, RateLimit.After(c, b, now)))
  }

  function Rejection(s: Signature): Response
    requires s != Good
  {
    match s
    case NoSignature => Unauthorized
    case Mismatch => Unauthorized
    case Malformed => BadRequest
    case BadSecret => InternalError
  }

  function CountEvent(c: Counts, event: string): Counts {
    match event
    case "pull_request" => c.(pullRequest := c.pullRequest + 1)
    case "issue_comment" => c.(issueComment := c.issueComment + 1)
    case "ping" => c.(ping := c.ping + 1)
    case _ => c.(other := c.other + 1)
  }

  function EventResponse(event: string): Response {
    match event
    case "pull_request" => ReviewEvent
    case "issue_comment" => CommentEvent
    case "ping" => Pong
    case _ => Ignored
  }

  /** A store that does not answer is ignored, as is a request without a delivery id. */
  predicate IsKnown(s: Option<Store>, r: Request) {
    s.Some? && r.delivery.Some?
    && match s.value
       case Recent(_, order) => r.delivery.value in order
       case Table(rows) => r.tableUp && r.delivery.value in rows
  }

  function AfterStore(s: Option<Store>, r: Request): Option<Store> {
    if s == None || r.delivery == None then s
    else
      var id := r.delivery.value;
      match s.value
      case Recent(capacity, order) => Some(Recent(capacity, Dedup.NextOrder(capacity, order, id)))
      case Table(rows) => if r.tableUp then Some(Table(rows + {id})) else s
  }

  function Answer(passes: bool, s: Option<Store>, r: Request): Response {
    if !passes then TooManyRequests
    else if r.signature != Good then Rejection(r.signature)
    else if IsKnown(s, r) then DuplicateOk
    else EventResponse(r.event)
  }

  function Counted(c: Counts, passes: bool, s: Option<Store>, r: Request): Counts {
    if !passes then c.(rateLimited := c.rateLimited + 1)
    else if r.signature != Good then c.(signatureFailures := c.signatureFailures + 1)
    else
      var e := CountEvent(c, r.event);
      if IsKnown(s, r) then e.(duplicates := e.duplicates + 1) else e
  }

  function After(g: Gate, r: Request): Gate {
    var passes := Passes(g.throttle, r.now);
    Gate(AfterThrottle(g.throttle, r.now),
         if passes && r.signature == Good then AfterStore(g.store, r) else g.store,
         Counted(g.counts, passes, g.store, r))
  }

  class Gateway {
    const throttle: RateLimit.TokenBucket?
    const recent: Dedup.RecentDeliveries?
    const table: Dedup.SqliteDeliveries?
    var counts: Counts

    ghost predicate Valid()
      reads this, throttle, recent
    {
      && (throttle != null ==> throttle.Valid())
      && (recent != null ==> recent.Valid() && table == null)
    }

    ghost function State(): Gate
      reads this, throttle, recent, table
    {
      Gate(if throttle == null then None else Some(Throttle(throttle.config, throttle.State())),
           if recent != null then Some(Recent(recent.capacity, recent.order))
           else if table != null then Some(Table(table.rows))
           else None,
           counts)
    }

    constructor (throttle: RateLimit.TokenBucket?, recent: Dedup.RecentDeliveries?, table: Dedup.SqliteDeliveries?)
      requires throttle != null ==> throttle.Valid()
      requires recent != null ==> recent.Valid() && table == null
      ensures Valid() && counts == Counts(0, 0, 0, 0, 0, 0, 0)
      ensures this.throttle == throttle && this.recent == recent && this.table == table
    {
      this.throttle, this.recent, this.table := throttle, recent, table;
      counts := Counts(0, 0, 0, 0, 0, 0, 0);
    }

    method CheckDelivery(id: string, tableUp: bool) returns (r: Option<Dedup.CheckResult>)
      requires Valid()
      modifies recent, table
      ensures Valid() && counts == old(counts)
      ensures throttle != null ==> throttle.State() == old(throttle.State())
      ensures var q := Request(0.0, Good, "", Some(id), tableUp);
              State().store == AfterStore(old(State().store), q)
              && (r == Some(Dedup.Duplicate) <==> IsKnown(old(State().store), q))
    {
      if recent != null {
        var c := recent.CheckAndRecord(id);
        r := Some(c);
      } else if table != null && tableUp {
        var c := table.CheckAndRecord(id);
        r := Some(c);
      } else {
        r := None;
      }
    }

    method Handle(r: Request) returns (response: Response)
      requires Valid()
      modifies this, throttle, recent, table
      ensures Valid()
      ensures State() == After(old(State()), r)
      ensures response == Answer(Passes(old(State()).throttle, r.now), old(State()).store, r)
    {
      hide RateLimit.Accepts, RateLimit.After, Dedup.NextOrder;
      if throttle != null {
        var taken := throttle.TryTakeAt(r.now);
        if !taken {
          counts := counts.(rateLimited := counts.rateLimited + 1);
          return TooManyRequests;
        }
      }
      if r.signature != Good {
        counts := counts.(signatureFailures := counts.signatureFailures + 1);
        return Rejection(r.signature);
      }
      counts := CountEvent(counts, r.event);
      if r.delivery.Some? {
        var c := CheckDelivery(r.delivery.value, r.tableUp);
        if c == Some(Dedup.Duplicate) {
          counts := counts.(duplicates := counts.duplicates + 1);
          return DuplicateOk;
        }
      }
      response := EventResponse(r.event);
    }
  }

  // ----- Runs -----

  /** The gate just before request `n`. */
  function GateAt(g: Gate, rs: seq<Request>, n: nat): Gate
    requires n <= |rs|
  {
    if n == 0 then g else After(GateAt(g, rs, n - 1), rs[n - 1])
  }

  predicate Passed(g: Gate, rs: seq<Request>, n: nat)
    requires n < |rs|
  {
    Passes(GateAt(g, rs, n).throttle, rs[n].now)
  }

  function ResponseAt(g: Gate, rs: seq<Request>, n: nat): Response
    requires n < |rs|
  {
    Answer(Passed(g, rs, n), GateAt(g, rs, n).store, rs[n])
  }

  /** The first `n` responses. */
  function Responses(g: Gate, rs: seq<Request>, n: nat): seq<Response>
    requires n <= |rs|
  {
    if n == 0 then [] else Responses(g, rs, n - 1) + [ResponseAt(g, rs, n - 1)]
  }

  // ----- The counters account for every request -----

  function Events(c: Counts): nat {
    c.pullRequest + c.issueComment + c.ping + c.other
  }

  predicate Accounts(before: Counts, after: Counts, responses: multiset<Response>) {
    && after.rateLimited == before.rateLimited + responses[TooManyRequests]
    && after.signatureFailures
       == before.signatureFailures + responses[Unauthorized] + responses[BadRequest] + responses[InternalError]
    && after.duplicates == before.duplicates + responses[DuplicateOk]
    && Events(after)
       == Events(before) + responses[DuplicateOk] + responses[ReviewEvent] + responses[CommentEvent]
          + responses[Pong] + responses[Ignored]
  }

  lemma OneRequestAccounts(before: Counts, g: Gate, r: Request, responses: multiset<Response>)
    requires Accounts(before, g.counts, responses)
    ensures var answer := Answer(Passes(g.throttle, r.now), g.store, r);
            Accounts(before, After(g, r).counts, responses + multiset{answer})
  {
    hide Passes, IsKnown, AfterStore, AfterThrottle;
    var passes, known := Passes(g.throttle, r.now), IsKnown(g.store, r);
    assert Events(CountEvent(g.counts, r.event)) == Events(g.counts) + 1;
    assert EventResponse(r.event) in [ReviewEvent, CommentEvent, Pong, Ignored];
  }

  /** Each request has left exactly one mark among throttled, refused and counted as an event,
      and a duplicate is an event with one more mark. */
  lemma {:induction false} CountersAccountForAll(g: Gate, rs: seq<Request>, n: nat)
    requires n <= |rs|
    ensures |Responses(g, rs, n)| == n
    ensures Accounts(g.counts, GateAt(g, rs, n).counts, multiset(Responses(g, rs, n)))
  {
    hide Accounts, After, Answer, Passes;
    if n > 0 {
      CountersAccountForAll(g, rs, n - 1);
      var answer := ResponseAt(g, rs, n - 1);
      assert GateAt(g, rs, n) == After(GateAt(g, rs, n - 1), rs[n - 1]);
      assert Responses(g, rs, n) == Responses(g, rs, n - 1) + [answer];
      hide GateAt, Responses;
      OneRequestAccounts(g.counts, GateAt(g, rs, n - 1), rs[n - 1], multiset(Responses(g, rs, n - 1)));
      MultisetSnoc(Responses(g, rs, n - 1), answer);
    } else {
      NothingAccounts(g.counts);
    }
  }

  lemma MultisetSnoc(s: seq<Response>, x: Response)
    ensures multiset(s + [x]) == multiset(s) + multiset{x}
  {
  }

  lemma NothingAccounts(c: Counts)
    ensures Accounts(c, c, multiset([]))
  {
  }

  /** What each response says about the request it answers. */
  lemma ResponseIff(g: Gate, rs: seq<Request>, n: nat)
    requires n < |rs|
    ensures var r, answer := rs[n], ResponseAt(g, rs, n);
            && (answer == TooManyRequests <==> !Passed(g, rs, n))
            && (answer == Unauthorized <==> Passed(g, rs, n) && (r.signature == NoSignature || r.signature == Mismatch))
            && (answer == BadRequest <==> Passed(g, rs, n) && r.signature == Malformed)
            && (answer == InternalError <==> Passed(g, rs, n) && r.signature == BadSecret)
            && (IsNewEvent(g, rs, n) ==>
                  && (answer == ReviewEvent <==> r.event == "pull_request")
                  && (answer == CommentEvent <==> r.event == "issue_comment")
                  && (answer == Pong <==> r.event == "ping")
                  && (answer == Ignored <==> r.event !in ["pull_request", "issue_comment", "ping"]))
            && (!IsNewEvent(g, rs, n) ==> answer !in [ReviewEvent, CommentEvent, Pong, Ignored])
  {
    hide GateAt, IsKnown, Passes;
    EventKinds(rs[n].event);
  }

  lemma EventKinds(event: string)
    ensures EventResponse(event) == ReviewEvent <==> event == "pull_request"
    ensures EventResponse(event) == CommentEvent <==> event == "issue_comment"
    ensures EventResponse(event) == Pong <==> event == "ping"
    ensures EventResponse(event) == Ignored <==> event !in ["pull_request", "issue_comment", "ping"]
  {
  }

  /** Passed the throttle, signed, and not dropped as a duplicate. */
  predicate IsNewEvent(g: Gate, rs: seq<Request>, n: nat)
    requires n < |rs|
  {
    Passed(g, rs, n) && rs[n].signature == Good && ResponseAt(g, rs, n) != DuplicateOk
  }

  /** Passed the throttle, was signed and named the event. */
  predicate Names(g: Gate, rs: seq<Request>, n: nat, event: string)
    requires n < |rs|
  {
    Passed(g, rs, n) && rs[n].signature == Good && rs[n].event == event
  }

  predicate NamesAnother(g: Gate, rs: seq<Request>, n: nat)
    requires n < |rs|
  {
    Passed(g, rs, n) && rs[n].signature == Good && rs[n].event !in ["pull_request", "issue_comment", "ping"]
  }

  function Named(g: Gate, rs: seq<Request>, n: nat, event: string): set<nat>
    requires n <= |rs|
  {
    set i: nat | i < n && Names(g, rs, i, event)
  }

  function NamedOther(g: Gate, rs: seq<Request>, n: nat): set<nat>
    requires n <= |rs|
  {
    set i: nat | i < n && NamesAnother(g, rs, i)
  }

  lemma NamedSnoc(g: Gate, rs: seq<Request>, n: nat, event: string)
    requires n < |rs|
    ensures |Named(g, rs, n + 1, event)| == |Named(g, rs, n, event)| + if Names(g, rs, n, event) then 1 else 0
  {
    hide Names;
    var last: set<nat> := if Names(g, rs, n, event) then {n} else {};
    assert Named(g, rs, n + 1, event) == Named(g, rs, n, event) + last;
  }

  lemma NamedOtherSnoc(g: Gate, rs: seq<Request>, n: nat)
    requires n < |rs|
    ensures |NamedOther(g, rs, n + 1)| == |NamedOther(g, rs, n)| + if NamesAnother(g, rs, n) then 1 else 0
  {
    hide NamesAnother;
    var last: set<nat> := if NamesAnother(g, rs, n) then {n} else {};
    assert NamedOther(g, rs, n + 1) == NamedOther(g, rs, n) + last;
  }

  lemma NoneNamed(g: Gate, rs: seq<Request>, event: string)
    ensures Named(g, rs, 0, event) == {} && NamedOther(g, rs, 0) == {}
  {
    hide Names, NamesAnother;
  }

  lemma CountedByName(c: Counts, passes: bool, s: Option<Store>, r: Request)
    ensures var d, counts := Counted(c, passes, s, r), passes && r.signature == Good;
            && d.pullRequest == c.pullRequest + (if counts && r.event == "pull_request" then 1 else 0)
            && d.issueComment == c.issueComment + (if counts && r.event == "issue_comment" then 1 else 0)
            && d.ping == c.ping + (if counts && r.event == "ping" then 1 else 0)
            && d.other == c.other + if counts && r.event !in ["pull_request", "issue_comment", "ping"] then 1 else 0
  {
    hide IsKnown;
  }

  lemma OneMoreNamed(g: Gate, rs: seq<Request>, n: nat)
    requires n < |rs|
    ensures var c, d := GateAt(g, rs, n).counts, GateAt(g, rs, n + 1).counts;
            && d.pullRequest == c.pullRequest + (if Names(g, rs, n, "pull_request") then 1 else 0)
            && d.issueComment == c.issueComment + (if Names(g, rs, n, "issue_comment") then 1 else 0)
            && d.ping == c.ping + (if Names(g, rs, n, "ping") then 1 else 0)
            && d.other == c.other + if NamesAnother(g, rs, n) then 1 else 0
  {
    hide Passes, Counted, AfterStore, AfterThrottle;
    CountedByName(GateAt(g, rs, n).counts, Passed(g, rs, n), GateAt(g, rs, n).store, rs[n]);
  }

  lemma AtFirst(g: Gate, rs: seq<Request>)
    ensures GateAt(g, rs, 0) == g
  {
  }

  /** Each event counter has counted exactly the authentic requests of its name, duplicates
      among them. */
  lemma {:induction false} EventsAreCountedByName(g: Gate, rs: seq<Request>, n: nat)
    requires n <= |rs|
    ensures var c := GateAt(g, rs, n).counts;
            && c.pullRequest == g.counts.pullRequest + |Named(g, rs, n, "pull_request")|
            && c.issueComment == g.counts.issueComment + |Named(g, rs, n, "issue_comment")|
            && c.ping == g.counts.ping + |Named(g, rs, n, "ping")|
            && c.other == g.counts.other + |NamedOther(g, rs, n)|
  {
    hide *;
    if n == 0 {
      AtFirst(g, rs);
      NoneNamed(g, rs, "pull_request");
      NoneNamed(g, rs, "issue_comment");
      NoneNamed(g, rs, "ping");
    } else {
      EventsAreCountedByName(g, rs, n - 1);
      OneMoreNamed(g, rs, n - 1);
      NamedSnoc(g, rs, n - 1, "pull_request");
      NamedSnoc(g, rs, n - 1, "issue_comment");
      NamedSnoc(g, rs, n - 1, "ping");
      NamedOtherSnoc(g, rs, n - 1);
    }
  }

  // ----- The throttle sees every request, and nothing else matters to it -----

  function Times(rs: seq<Request>): seq<real> {
    seq(|rs|, i requires 0 <= i < |rs| => rs[i].now)
  }

  lemma {:induction false} ThrottleIsTheBucket(g: Gate, rs: seq<Request>, n: nat)
    requires n <= |rs|
    ensures match g.throttle
            case None => GateAt(g, rs, n).throttle == None
            case Some(Throttle(c, b)) =>
              GateAt(g, rs, n).throttle == Some(Throttle(c, RateLimit.StateAt(c, b, Times(rs), n)))
  {
    hide RateLimit.After;
    if n > 0 {
      ThrottleIsTheBucket(g, rs, n - 1);
    }
  }

  lemma PassedIsTheAnswer(g: Gate, rs: seq<Request>, n: nat)
    requires n < |rs|
    ensures match g.throttle
            case None => Passed(g, rs, n)
            case Some(Throttle(c, b)) => Passed(g, rs, n) == RateLimit.Answer(c, b, Times(rs), n)
  {
    hide RateLimit.Accepts, GateAt;
    ThrottleIsTheBucket(g, rs, n);
  }

  /** How many of the requests `i..j` went on to the signature check. */
  function CheckedBetween(g: Gate, rs: seq<Request>, i: nat, j: nat): real
    requires i <= j <= |rs|
  {
    if i == j then 0.0
    else CheckedBetween(g, rs, i, j - 1) + if ResponseAt(g, rs, j - 1) != TooManyRequests then 1.0 else 0.0
  }

  lemma {:induction false} CheckedAreAccepted(g: Gate, rs: seq<Request>, i: nat, j: nat)
    requires i <= j <= |rs| && g.throttle.Some?
    ensures CheckedBetween(g, rs, i, j)
            == RateLimit.Accepted(g.throttle.value.config, g.throttle.value.bucket, Times(rs), i, j)
  {
    hide GateAt, IsKnown, RateLimit.Answer;
    if i < j {
      CheckedAreAccepted(g, rs, i, j - 1);
      PassedIsTheAnswer(g, rs, j - 1);
      OnlyThrottledAreTooMany(g, rs, j - 1);
    }
  }

  lemma OnlyThrottledAreTooMany(g: Gate, rs: seq<Request>, n: nat)
    requires n < |rs|
    ensures ResponseAt(g, rs, n) == TooManyRequests <==> !Passed(g, rs, n)
  {
    hide GateAt, IsKnown, Passes;
  }

  /** However many unsigned requests come in, the signature checks stay within the budget. */
  lemma SignatureChecksAreBounded(g: Gate, rs: seq<Request>, i: nat, j: nat)
    requires g.throttle.Some? && g.throttle.value.config.Valid()
    requires g.throttle.value.bucket.Within(g.throttle.value.config)
    requires i < j <= |rs|
    ensures var c := g.throttle.value.config;
            CheckedBetween(g, rs, i, j) <= c.capacity + RateLimit.Worth(c, RateLimit.Elapsed(Times(rs), i, j - 1))
  {
    hide RateLimit.Worth, CheckedBetween;
    CheckedAreAccepted(g, rs, i, j);
    RateLimit.WindowBound(g.throttle.value.config, g.throttle.value.bucket, Times(rs), i, j);
  }

  // ----- The delivery store sees authentic deliveries only -----

  predicate IsAuthentic(g: Gate, rs: seq<Request>, n: nat)
    requires n < |rs|
  {
    Passed(g, rs, n) && rs[n].signature == Good && rs[n].delivery.Some?
  }

  /** The delivery ids, in order, of the requests among the first `n` that passed the throttle
      and were signed. */
  function Deliveries(g: Gate, rs: seq<Request>, n: nat): seq<string>
    requires n <= |rs|
  {
    if n == 0 then []
    else Deliveries(g, rs, n - 1) + if IsAuthentic(g, rs, n - 1) then [rs[n - 1].delivery.value] else []
  }

  /** `ks` are the places of the authentic requests, in order. */
  ghost predicate ArePlaces(g: Gate, rs: seq<Request>, n: nat, ks: seq<nat>)
    requires n <= |rs|
  {
    && (forall i, j :: 0 <= i < j < |ks| ==> ks[i] < ks[j])
    && forall k: nat :: k in ks <==> k < n && IsAuthentic(g, rs, k)
  }

  lemma {:induction false} DeliveryPlaces(g: Gate, rs: seq<Request>, n: nat) returns (ks: seq<nat>)
    requires n <= |rs|
    ensures ArePlaces(g, rs, n, ks) && |Deliveries(g, rs, n)| == |ks|
    ensures forall j :: 0 <= j < |ks| ==> ks[j] < n && rs[ks[j]].delivery == Some(Deliveries(g, rs, n)[j])
  {
    hide Passed;
    if n == 0 {
      ks := [];
    } else {
      var before := DeliveryPlaces(g, rs, n - 1);
      ks := before + if IsAuthentic(g, rs, n - 1) then [n - 1] else [];
      assert forall k: nat :: k in ks <==> k in before || (k == n - 1 && IsAuthentic(g, rs, n - 1));
    }
  }

  lemma OrderAfterOne(capacity: nat, arrivals: seq<string>, id: string)
    ensures Dedup.OrderAt(capacity, arrivals + [id], |arrivals| + 1)
            == Dedup.NextOrder(capacity, Dedup.OrderAt(capacity, arrivals, |arrivals|), id)
  {
    hide Dedup.NextOrder;
    OrderOfPrefix(capacity, arrivals, id, |arrivals|);
  }

  lemma {:induction false} OrderOfPrefix(capacity: nat, arrivals: seq<string>, id: string, n: nat)
    requires n <= |arrivals|
    ensures Dedup.OrderAt(capacity, arrivals + [id], n) == Dedup.OrderAt(capacity, arrivals, n)
  {
    hide Dedup.NextOrder;
    if n > 0 {
      OrderOfPrefix(capacity, arrivals, id, n - 1);
    }
  }

  lemma {:induction false} StoreHoldsDeliveries(g: Gate, rs: seq<Request>, n: nat)
    requires n <= |rs| && g.store.Some? && g.store.value.Recent? && g.store.value.order == []
    ensures var c, ds := g.store.value.capacity, Deliveries(g, rs, n);
            GateAt(g, rs, n).store == Some(Recent(c, Dedup.OrderAt(c, ds, |ds|)))
  {
    hide Dedup.NextOrder, Passes, Counted, AfterThrottle;
    if n > 0 {
      StoreHoldsDeliveries(g, rs, n - 1);
      var ds := Deliveries(g, rs, n - 1);
      if IsAuthentic(g, rs, n - 1) {
        OrderAfterOne(g.store.value.capacity, ds, rs[n - 1].delivery.value);
      } else {
        assert ds + [] == ds;
      }
    }
  }

  /** A delivery is dropped as a duplicate if and only if it is itself authentic and its id is
      among the last `capacity` different ids of authentic deliveries: requests that are
      throttled or not signed can neither be dropped so nor cause it. */
  lemma DroppedIffAuthenticRepeat(g: Gate, rs: seq<Request>, n: nat)
    requires n < |rs| && g.store.Some? && g.store.value.Recent? && g.store.value.order == []
    requires g.store.value.capacity >= 1
    ensures var c, ds := g.store.value.capacity, Deliveries(g, rs, n);
            ResponseAt(g, rs, n) == DuplicateOk
            <==> IsAuthentic(g, rs, n)
                 && rs[n].delivery.value in Dedup.Last(Dedup.FirstSights(c, ds, |ds|), c)
  {
    hide GateAt, Dedup.Last, Dedup.FirstSights, Dedup.OrderAt, Passes, Deliveries;
    var c, ds := g.store.value.capacity, Deliveries(g, rs, n);
    StoreHoldsDeliveries(g, rs, n);
    Dedup.QueueIsSuffixOfFirstSights(c, ds, |ds|);
  }

  /** With the table, an id is dropped if and only if an authentic request before it carried it
      while the table answered; while the table is down nothing is dropped. */
  lemma {:induction false} TableHoldsDeliveries(g: Gate, rs: seq<Request>, n: nat)
    requires n <= |rs| && g.store == Some(Table({}))
    ensures GateAt(g, rs, n).store.Some? && GateAt(g, rs, n).store.value.Table?
    ensures forall id :: id in GateAt(g, rs, n).store.value.rows
                         <==> exists i :: 0 <= i < n && RecordsAt(g, rs, i, id)
  {
    hide Passes, Counted, AfterThrottle;
    if n > 0 {
      TableHoldsDeliveries(g, rs, n - 1);
      var before, after := GateAt(g, rs, n - 1).store.value, GateAt(g, rs, n).store.value;
      forall id
        ensures id in after.rows <==> id in before.rows || RecordsAt(g, rs, n - 1, id)
      {
      }
    }
  }

  predicate RecordsAt(g: Gate, rs: seq<Request>, n: nat, id: string)
    requires n < |rs|
  {
    IsAuthentic(g, rs, n) && rs[n].delivery == Some(id) && rs[n].tableUp
  }

  // ----- A throttled request leaves no trace -----

  function WithoutRequest(rs: seq<Request>, k: nat): seq<Request>
    requires k < |rs|
  {
    rs[..k] + rs[k + 1..]
  }

  /** The clock does not step back at request `k`, nor right after it. */
  ghost predicate OnClock(g: Gate, rs: seq<Request>, k: nat)
    requires k < |rs|
  {
    && g.throttle.Some? && g.throttle.value.config.Valid()
    && RateLimit.ForwardAround(g.throttle.value.bucket, Times(rs), k)
  }

  lemma {:induction false} GateDependsOnPrefix(g: Gate, rs: seq<Request>, qs: seq<Request>, n: nat)
    requires n <= |rs| && n <= |qs| && forall i :: 0 <= i < n ==> rs[i] == qs[i]
    ensures GateAt(g, rs, n) == GateAt(g, qs, n)
  {
    hide After;
    if n > 0 {
      GateDependsOnPrefix(g, rs, qs, n - 1);
    }
  }

  lemma PassedWithout(g: Gate, rs: seq<Request>, k: nat, n: nat)
    requires k < n < |rs| && OnClock(g, rs, k) && !Passed(g, rs, k)
    ensures Passed(g, rs, n) == Passed(g, WithoutRequest(rs, k), n - 1)
  {
    hide Passed, RateLimit.Answer, RateLimit.ForwardAround;
    var c, b := g.throttle.value.config, g.throttle.value.bucket;
    PassedIsTheAnswer(g, rs, k);
    PassedIsTheAnswer(g, rs, n);
    PassedIsTheAnswer(g, WithoutRequest(rs, k), n - 1);
    RateLimit.RefusedCallLeavesNoTrace(c, b, Times(rs), k, n);
    assert Times(WithoutRequest(rs, k)) == RateLimit.Without(Times(rs), k);
  }

  lemma {:induction false} StoreWithout(g: Gate, rs: seq<Request>, k: nat, n: nat)
    requires k < n <= |rs| && OnClock(g, rs, k) && !Passed(g, rs, k)
    ensures GateAt(g, rs, n).store == GateAt(g, WithoutRequest(rs, k), n - 1).store
  {
    hide OnClock, AfterStore, AfterThrottle, Counted, Passes;
    var qs := WithoutRequest(rs, k);
    if n == k + 1 {
      GateDependsOnPrefix(g, rs, qs, k);
    } else {
      StoreWithout(g, rs, k, n - 1);
      PassedWithout(g, rs, k, n - 1);
      assert qs[n - 2] == rs[n - 1];
    }
  }

  /** If the clock does not step back around it, deleting a throttled request from a run changes
      no other response: neither the throttle nor the delivery store remembers it. */
  lemma ThrottledRequestLeavesNoTrace(g: Gate, rs: seq<Request>, k: nat, n: nat)
    requires k < |rs| && n < |rs| && n != k && OnClock(g, rs, k)
    requires ResponseAt(g, rs, k) == TooManyRequests
    ensures ResponseAt(g, rs, n) == ResponseAt(g, WithoutRequest(rs, k), if n < k then n else n - 1)
  {
    hide OnClock, GateAt, IsKnown;
    var qs := WithoutRequest(rs, k);
    OnlyThrottledAreTooMany(g, rs, k);
    if n < k {
      GateDependsOnPrefix(g, rs, qs, n);
    } else {
      PassedWithout(g, rs, k, n);
      StoreWithout(g, rs, k, n);
    }
  }
}
