/** Metadata watchers: each polls its own URL, and all hand their results to their handlers under
    one mutex. */
module Watchers {
  import opened Versions

  type Tag = string

  /** How one request ends: no response, a status other than 200, or a 200 with its ETag and its
      body (None when reading the body fails). */
  datatype Response = Failed | NotOk(status: int) | Ok(etag: Tag, body: Option<Bytes>)

  /** One request: the ETag it carried and how it ended. */
  datatype Poll = Poll(lastETag: Tag, response: Response)

  const FIRST_TAG := "0"

  /** The ETag of the latest 200 response; "0" before the first. */
  function LatestTag(polls: seq<Poll>): Tag {
    if polls == [] then FIRST_TAG
    else match polls[|polls| - 1].response
      case Ok(etag, _) => etag
      case _ => LatestTag(polls[..|polls| - 1])
  }

  /** The bodies that were read, in order. */
  function Bodies(polls: seq<Poll>): seq<Bytes> {
    if polls == [] then []
    else
      Bodies(polls[..|polls| - 1]) +
      match polls[|polls| - 1].response
      case Ok(_, Some(body)) => [body]
      case _ => []
  }

  /** After `before` came one request for each of `responses`, and none but the last was delivered. */
  ghost predicate Asked(before: seq<Poll>, after: seq<Poll>, responses: seq<Response>) {
    if responses == [] then after == before
    else
      && |after| > |before| && after[|after| - 1].response == responses[|responses| - 1]
      && Asked(before, after[..|after| - 1], responses[..|responses| - 1])
      && Bodies(after[..|after| - 1]) == Bodies(before)
  }

  lemma AskedOneMore(before: seq<Poll>, mid: seq<Poll>, responses: seq<Response>, p: Poll)
    requires Asked(before, mid, responses) && before <= mid && Bodies(mid) == Bodies(before)
    ensures Asked(before, mid + [p], responses + [p.response]) && before <= mid + [p]
  {
    assert (mid + [p])[..|mid|] == mid && (responses + [p.response])[..|responses|] == responses;
  }

  /** Every request carried the ETag of the latest 200 response before it. */
  ghost predicate TagsFollow(polls: seq<Poll>) {
    forall k | 0 <= k < |polls| :: polls[k].lastETag == LatestTag(polls[..k])
  }

  lemma OneMorePoll(polls: seq<Poll>, p: Poll)
    ensures LatestTag(polls + [p]) == if p.response.Ok? then p.response.etag else LatestTag(polls)
    ensures Bodies(polls + [p]) ==
              Bodies(polls) + if p.response.Ok? && p.response.body.Some? then [p.response.body.value] else []
    ensures TagsFollow(polls) && p.lastETag == LatestTag(polls) ==> TagsFollow(polls + [p])
  {
    assert (polls + [p])[..|polls|] == polls;
    forall k | 0 <= k < |polls| ensures (polls + [p])[..k] == polls[..k] { }
  }

  /** The body of a 200 response that was read to its end. */
  predicate Delivers(p: Poll) {
    p.response.Ok? && p.response.body.Some?
  }

  /** `at` lists, in order, the positions of exactly the polls that deliver, and these deliver `bodies`. */
  ghost predicate DeliveredAt(polls: seq<Poll>, bodies: seq<Bytes>, at: seq<nat>) {
    && |at| == |bodies|
    && (forall i | 0 <= i < |at| :: at[i] < |polls| && Delivers(polls[at[i]]) && polls[at[i]].response.body.value == bodies[i])
    && (forall i, j | 0 <= i < j < |at| :: at[i] < at[j])
    && (forall k | 0 <= k < |polls| && Delivers(polls[k]) :: k in at)
  }

  lemma DeliveredOneMore(polls: seq<Poll>, bodies: seq<Bytes>, at: seq<nat>, p: Poll)
    requires DeliveredAt(polls, bodies, at)
    ensures Delivers(p) ==> DeliveredAt(polls + [p], bodies + [p.response.body.value], at + [|polls|])
    ensures !Delivers(p) ==> DeliveredAt(polls + [p], bodies, at)
  {
    forall k | 0 <= k < |polls| && Delivers(polls[k]) ensures k in at + [|polls|] {
      assert k in at;
    }
    assert (at + [|polls|])[|at|] == |polls|;
  }

  /** What is delivered is an in-order subsequence of the 200 responses, and misses one only where
      its body was not read. */
  lemma {:induction false} DeliveredPositions(polls: seq<Poll>) returns (at: seq<nat>)
    ensures DeliveredAt(polls, Bodies(polls), at)
  {
    at := [];
    if polls != [] {
      var before, p := polls[..|polls| - 1], polls[|polls| - 1];
      at := DeliveredPositions(before);
      DeliveredOneMore(before, Bodies(before), at, p);
      assert polls == before + [p];
      if Delivers(p) { at := at + [|before|]; }
    }
  }

  class Poller {
    var lastETag: Tag
    ghost var polls: seq<Poll>

    constructor ()
      ensures Valid() && polls == []
    {
      lastETag, polls := FIRST_TAG, [];
    }

    ghost predicate Valid()
      reads this
    {
      TagsFollow(polls) && lastETag == LatestTag(polls)
    }

    /** `get`: the ETag is remembered before the body is read. */
    method GetOnce(response: Response) returns (body: Option<Bytes>)
      requires Valid()
      modifies this
      ensures Valid() && polls == old(polls) + [Poll(old(lastETag), response)]
      ensures body == if response.Ok? then response.body else None
    {
      ghost var p := Poll(lastETag, response);
      OneMorePoll(polls, p);
      polls := polls + [p];
      match response
      case Ok(etag, read) =>
        lastETag := etag;
        body := read;
      case _ =>
        body := None;
    }

    /** `Get`: repeats the request until a body is read or the retries are used up. */
    method Get(responses: seq<Response>) returns (body: Option<Bytes>)
      requires Valid()
      modifies this
      ensures Valid() && old(polls) <= polls
      ensures Bodies(polls) == Bodies(old(polls)) + match body { case Some(b) => [b] case None => [] }
      ensures exists used: nat :: used <= |responses| && Asked(old(polls), polls, responses[..used])
                && match body
                   case Some(b) => used > 0 && responses[used - 1].Ok? && responses[used - 1].body == body
                   case None => used == |responses|
    {
      body := None;
      for i := 0 to |responses|
        invariant Valid() && body == None && old(polls) <= polls
        invariant Asked(old(polls), polls, responses[..i])
        invariant Bodies(polls) == Bodies(old(polls))
      {
        ghost var p, mid := Poll(lastETag, responses[i]), polls;
        OneMorePoll(mid, p);
        AskedOneMore(old(polls), mid, responses[..i], p);
        body := GetOnce(responses[i]);
        assert responses[..i + 1] == responses[..i] + [responses[i]];
        if body.Some? {
          assert Asked(old(polls), polls, responses[..i + 1]);
          return;
        }
      }
      assert responses[..|responses|] == responses;
    }
  }

  /** Where a watcher is in its loop: polling, waiting for the mutex with a result, inside its
      handler, or done because the context was cancelled. */
  datatype Phase = Polling | Waiting(data: Bytes) | Handling(data: Bytes) | Gone

  /** A watcher with the ETag its poller remembers, the polls it made, and the data its handler
      was given. */
  datatype Watcher = Watcher(phase: Phase, lastETag: Tag, polls: seq<Poll>, received: seq<Bytes>)

  /** The mutex and the watchers. */
  datatype State = State(holder: Option<nat>, watchers: seq<Watcher>)

  /** One step of one watcher; steps of different watchers interleave in any way. */
  datatype Step =
    | Request(i: nat, response: Response)
    | Lock(i: nat)
    | Unlock(i: nat)
    | Cancel(i: nat)

  predicate Enabled(s: State, step: Step) {
    && step.i < |s.watchers|
    && match step
       case Request(i, _) => s.watchers[i].phase.Polling?
       case Lock(i) => s.watchers[i].phase.Waiting? && s.holder == None
       case Unlock(i) => s.watchers[i].phase.Handling?
       case Cancel(i) => s.watchers[i].phase.Polling?
  }

  /** What a step makes of its watcher. */
  function Move(w: Watcher, step: Step): Watcher
    requires step.Lock? ==> w.phase.Waiting?
  {
    match step
    case Request(_, response) =>
      w.(polls := w.polls + [Poll(w.lastETag, response)],
         lastETag := if response.Ok? then response.etag else w.lastETag,
         phase := if response.Ok? && response.body.Some? then Waiting(response.body.value) else Polling)
    case Lock(_) => w.(phase := Handling(w.phase.data), received := w.received + [w.phase.data])
    case Unlock(_) => w.(phase := Polling)
    case Cancel(_) => w.(phase := Gone)
  }

  function Apply(s: State, step: Step): State
    requires Enabled(s, step)
  {
    var holder := match step
                  case Lock(i) => Some(i)
                  case Unlock(_) => None
                  case _ => s.holder;
    State(holder, s.watchers[step.i := Move(s.watchers[step.i], step)])
  }

  function Start(n: nat): State {
    State(None, seq(n, _ => Watcher(Polling, FIRST_TAG, [], [])))
  }

  /** The state an interleaving of steps leads to, None when some step is not possible. */
  function After(n: nat, steps: seq<Step>): Option<State> {
    if steps == [] then Some(Start(n))
    else match After(n, steps[..|steps| - 1])
      case None => None
      case Some(s) => if Enabled(s, steps[|steps| - 1]) then Some(Apply(s, steps[|steps| - 1])) else None
  }

  /** The mutex is held by exactly the watcher that is inside its handler. */
  ghost predicate MutexHeld(s: State) {
    forall i: nat | i < |s.watchers| :: s.watchers[i].phase.Handling? <==> s.holder == Some(i)
  }

  /** Every request carried the ETag of the latest 200 response, and so will the next; what a handler
      was given, plus the result that waits for the mutex, is what its poller read. */
  ghost predicate InOrder(w: Watcher) {
    && TagsFollow(w.polls) && w.lastETag == LatestTag(w.polls)
    && w.received + (if w.phase.Waiting? then [w.phase.data] else []) == Bodies(w.polls)
  }

  lemma MoveKeepsOrder(s: State, step: Step)
    requires Enabled(s, step) && InOrder(s.watchers[step.i])
    ensures InOrder(Move(s.watchers[step.i], step))
  {
    var w := s.watchers[step.i];
    if step.Request? {
      OneMorePoll(w.polls, Poll(w.lastETag, step.response));
    }
  }

  lemma StepKeepsInvariant(s: State, step: Step)
    requires Enabled(s, step) && MutexHeld(s)
    requires forall w | w in s.watchers :: InOrder(w)
    ensures MutexHeld(Apply(s, step))
    ensures forall w | w in Apply(s, step).watchers :: InOrder(w)
  {
    MoveKeepsOrder(s, step);
    var t := Apply(s, step);
    forall i: nat | i < |t.watchers| ensures InOrder(t.watchers[i]) {
      if i != step.i { assert t.watchers[i] == s.watchers[i]; }
    }
  }

  /** In every interleaving of any number of watchers at most one handler runs at a time, and every
      handler receives exactly its own poller's results, in order, each request for them with the
      ETag of the latest 200 response before it. */
  lemma {:induction false} WatchersInvariant(n: nat, steps: seq<Step>, s: State)
    requires After(n, steps) == Some(s)
    ensures MutexHeld(s)
    ensures forall i: nat, j: nat | i < |s.watchers| && j < |s.watchers|
              && s.watchers[i].phase.Handling? && s.watchers[j].phase.Handling? :: i == j
    ensures forall w | w in s.watchers :: InOrder(w)
  {
    if steps != [] {
      var before := After(n, steps[..|steps| - 1]).value;
      WatchersInvariant(n, steps[..|steps| - 1], before);
      StepKeepsInvariant(before, steps[|steps| - 1]);
    }
  }

  lemma {:induction false} SameNumber(n: nat, steps: seq<Step>, s: State)
    requires After(n, steps) == Some(s)
    ensures |s.watchers| == n
  {
    if steps != [] {
      SameNumber(n, steps[..|steps| - 1], After(n, steps[..|steps| - 1]).value);
    }
  }

  /** A watcher goes on for good: it is gone only if its context was cancelled. */
  lemma {:induction false} GoneIffCancelled(n: nat, steps: seq<Step>, s: State, i: nat)
    requires After(n, steps) == Some(s) && i < n
    ensures |s.watchers| == n
    ensures s.watchers[i].phase.Gone? <==> Cancel(i) in steps
  {
    SameNumber(n, steps, s);
    if steps != [] {
      var before, last := steps[..|steps| - 1], steps[|steps| - 1];
      var t := After(n, before).value;
      GoneIffCancelled(n, before, t, i);
      assert steps == before + [last];
    }
  }

  /** What a watcher can do next, unless it was cancelled. When the mutex is free it can poll or take
      the mutex; when it holds the mutex it can release it; and the mutex is always held by some
      watcher that can release it. So nobody is ever stuck. */
  lemma NobodyStuck(n: nat, steps: seq<Step>, s: State, i: nat, response: Response)
    requires After(n, steps) == Some(s) && i < n && Cancel(i) !in steps
    ensures s.holder == None ==> Enabled(s, Request(i, response)) || Enabled(s, Lock(i))
    ensures s.holder == Some(i) ==> Enabled(s, Unlock(i))
    ensures s.holder.Some? ==> Enabled(s, Unlock(s.holder.value))
    ensures Enabled(s, Cancel(i)) <==> Enabled(s, Request(i, response))
  {
    GoneIffCancelled(n, steps, s, i);
    WatchersInvariant(n, steps, s);
    HolderIsWatcher(n, steps, s);
  }

  lemma {:induction false} HolderIsWatcher(n: nat, steps: seq<Step>, s: State)
    requires After(n, steps) == Some(s)
    ensures s.holder.Some? ==> s.holder.value < |s.watchers|
  {
    if steps != [] {
      HolderIsWatcher(n, steps[..|steps| - 1], After(n, steps[..|steps| - 1]).value);
    }
  }

  /** The loop of a watcher: after a request that read no body, and after its handler is done, it polls
      again, whatever the answer will be; a body that was read goes to its handler next. */
  lemma GoesRound(s: State, step: Step, next: Response)
    requires Enabled(s, step)
    ensures var t := Apply(s, step);
      && |t.watchers| == |s.watchers|
      && (forall j: nat | j < |s.watchers| && j != step.i :: t.watchers[j] == s.watchers[j])
      && match step
         case Request(i, Ok(etag, Some(body))) =>
           && t.holder == s.holder && t.watchers[i].phase == Waiting(body) && t.watchers[i].received == s.watchers[i].received
           && (t.holder == None ==>
                 Enabled(t, Lock(i)) && Apply(t, Lock(i)).watchers[i].received == s.watchers[i].received + [body])
         case Request(i, _) => t.holder == s.holder && Enabled(t, Request(i, next))
         case Lock(i) => t.holder == Some(i) && Enabled(t, Unlock(i))
         case Unlock(i) => t.holder == None && Enabled(t, Request(i, next))
         case Cancel(i) => t.holder == s.holder && t.watchers[i].phase == Gone
  {
  }

  /** The ETag remembered is that of the last 200 response, and "0" before the first. */
  lemma {:induction false} LatestTagIs(polls: seq<Poll>, k: nat)
    requires forall j | k < j < |polls| :: !polls[j].response.Ok?
    ensures k < |polls| && polls[k].response.Ok? ==> LatestTag(polls) == polls[k].response.etag
    ensures k == 0 && (polls == [] || !polls[0].response.Ok?) ==> LatestTag(polls) == "0"
  {
    if polls != [] && !polls[|polls| - 1].response.Ok? {
      LatestTagIs(polls[..|polls| - 1], k);
    }
  }
}
