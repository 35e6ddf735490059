/** The audit retry queue (services/admin-api/handlers_data.go): events whose forward to the
    evidence store fails are queued, and one flush loop retries them. Interleaved steps, one
    per lock section or delivery attempt: between its failed attempt and the lock a forwarder
    holds its event. Events are named by the order in which their forwards failed, queue
    entries by the order in which they were appended. */
module AuditQueue {
  // ---------------------------------------------------------------------------
  // One flush, alone
  // ---------------------------------------------------------------------------

  /** The events whose attempt failed, in order; ok[i] is the i-th attempt's result. */
  function Kept<E>(events: seq<E>, ok: seq<bool>): (r: seq<E>)
    requires |events| == |ok|
  {
    if events == [] then []
    else
      var last := |events| - 1;
      var rest := Kept(events[..last], ok[..last]);
      if ok[last] then rest else rest + [events[last]]
  }

  function Sent<E>(events: seq<E>, ok: seq<bool>): (r: seq<E>)
    requires |events| == |ok|
  {
    Kept(events, seq(|ok|, i requires 0 <= i < |ok| => !ok[i]))
  }

  class App<E> {
    var auditQueue: seq<E>
    /** Delivery attempts that succeeded, oldest first. */
    ghost var delivered: seq<E>

    constructor ()
      ensures auditQueue == [] && delivered == []
    {
      auditQueue := [];
      delivered := [];
    }

    method ForwardAudit(ev: E, posted: bool)
      modifies this
      ensures auditQueue == old(auditQueue) + (if posted then [] else [ev])
      ensures delivered == old(delivered) + (if posted then [ev] else [])
    {
      if posted {
        delivered := delivered + [ev];
      } else {
        auditQueue := auditQueue + [ev];
      }
    }

    /** post(i): whether the i-th attempt of this flush succeeds. */
    method FlushAuditQueue(post: nat -> bool)
      modifies this
      ensures var ok := seq(|old(auditQueue)|, i requires 0 <= i => post(i));
              auditQueue == Kept(old(auditQueue), ok) && delivered == old(delivered) + Sent(old(auditQueue), ok)
    {
      var pending := auditQueue;
      ghost var ok, not := seq(|pending|, i requires 0 <= i => post(i)), seq(|pending|, i requires 0 <= i => !post(i));
      assert not == seq(|ok|, i requires 0 <= i < |ok| => !ok[i]);
      auditQueue := [];
      if |pending| == 0 { return; }
      var still := [];
      for n := 0 to |pending|
        invariant still == Kept(pending[..n], ok[..n])
        invariant delivered == old(delivered) + Kept(pending[..n], not[..n])
        invariant auditQueue == []
      {
        assert pending[..n + 1][..n] == pending[..n] && ok[..n + 1][..n] == ok[..n] && not[..n + 1][..n] == not[..n];
        var ev := pending[n];
        if post(n) {
          delivered := delivered + [ev];
        } else {
          still := still + [ev];
        }
      }
      assert pending[..|pending|] == pending && ok[..|pending|] == ok && not[..|pending|] == not;
      if |still| > 0 { auditQueue := still + auditQueue; }
    }
  }

  // ---------------------------------------------------------------------------
  // Interleaved with forwards
  // ---------------------------------------------------------------------------

  datatype Flush = Idle | Flying(still: seq<nat>, untried: seq<nat>)

  /** failures: how many forwards have failed; held: failed but not appended yet; appended:
      the events appended so far. Entry n of the queue stands for event appended[n]. */
  datatype State = State(failures: nat, held: set<nat>, appended: seq<nat>, queue: seq<nat>, flush: Flush, delivered: seq<nat>)

  datatype Step =
    | ForwardFails        // a delivery attempt of a new event fails
    | Append(event: nat)  // its forwarder appends it under the lock
    | Take                // copy and empty the queue under the lock
    | Try(posted: bool)   // one delivery attempt of the flush
    | PutBack             // prepend what still fails, under the lock

  /** The steps the code can take; a step that is not enabled does nothing. */
  function Next(s: State, step: Step): State {
    match step
    case ForwardFails => s.(failures := s.failures + 1, held := s.held + {s.failures})
    case Append(e) =>
      if e in s.held then s.(held := s.held - {e}, appended := s.appended + [e], queue := s.queue + [|s.appended|]) else s
    case Take => if s.flush.Idle? && s.queue != [] then s.(queue := [], flush := Flying([], s.queue)) else s
    case Try(posted) =>
      if s.flush.Flying? && s.flush.untried != [] then
        var ev, rest := s.flush.untried[0], s.flush.untried[1..];
        if posted then s.(flush := Flying(s.flush.still, rest), delivered := s.delivered + [ev])
        else s.(flush := Flying(s.flush.still + [ev], rest))
      else s
    case PutBack =>
      if s.flush.Flying? && s.flush.untried == [] then s.(queue := s.flush.still + s.queue, flush := Idle) else s
  }

  /** Everything not yet delivered, in the order in which it will be retried. */
  function Waiting(s: State): seq<nat> {
    if s.flush.Idle? then s.queue else s.flush.still + s.flush.untried + s.queue
  }

  ghost predicate Increasing(q: seq<nat>) { forall i, j :: 0 <= i < j < |q| ==> q[i] < q[j] }

  ghost predicate NoRepeats(q: seq<nat>) { forall i, j :: 0 <= i < j < |q| ==> q[i] != q[j] }

  /** The entries below count: the waiting ones are in order, and each was delivered once or
      is waiting once, never both. */
  ghost predicate Accounted(count: nat, waiting: seq<nat>, delivered: seq<nat>) {
    && Increasing(waiting) && NoRepeats(delivered)
    && (forall e: nat :: e < count <==> (e in delivered || e in waiting))
    && (forall e: nat :: !(e in delivered && e in waiting))
  }

  /** ... and every failed event is held or was appended, once. */
  ghost predicate Inv(s: State) {
    && Accounted(|s.appended|, Waiting(s), s.delivered)
    && NoRepeats(s.appended)
    && (forall e: nat :: e < s.failures <==> (e in s.held || e in s.appended))
    && (forall e: nat :: !(e in s.held && e in s.appended))
  }

  const INITIAL := State(0, {}, [], [], Idle, [])

  lemma OneMoreWaits(count: nat, waiting: seq<nat>, delivered: seq<nat>)
    requires Accounted(count, waiting, delivered)
    ensures Accounted(count + 1, waiting + [count], delivered)
  {
    assert forall i :: 0 <= i < |waiting| ==> waiting[i] in waiting;
  }

  lemma OneIsDelivered(count: nat, before: seq<nat>, e: nat, after: seq<nat>, delivered: seq<nat>)
    requires Accounted(count, before + [e] + after, delivered)
    ensures Accounted(count, before + after, delivered + [e])
  {
    var w, w1 := before + [e] + after, before + after;
    var n := |before|;
    assert w[n] == e && e in w;
    assert forall i :: 0 <= i < |w1| ==> w1[i] == w[if i < n then i else i + 1];
    assert Increasing(w1);
    assert e !in w1;
    assert forall x: nat :: x in w <==> x in before || x == e || x in after;
    assert forall x: nat :: x in w1 <==> x in before || x in after;
    hide Increasing;
    assert NoRepeats(delivered + [e]);
  }

  lemma StepInv(s: State, step: Step)
    requires Inv(s)
    ensures Inv(Next(s, step))
  {
    hide Accounted;
    var t := Next(s, step);
    var w, w1 := Waiting(s), Waiting(t);
    match step
    case ForwardFails =>
      assert w1 == w;
      assert forall e: nat :: e in t.held <==> e in s.held || e == s.failures;
    case Append(e) =>
      if t != s {
        OneMoreWaits(|s.appended|, w, s.delivered);
        assert w1 == w + [|s.appended|];
        assert t.appended == s.appended + [e];
      }
    case Take =>
      assert t != s ==> w1 == w;
    case Try(posted) =>
      if t != s {
        var ev, still, rest := s.flush.untried[0], s.flush.still, s.flush.untried[1..];
        assert w == still + [ev] + (rest + s.queue);
        if posted {
          OneIsDelivered(|s.appended|, still, ev, rest + s.queue, s.delivered);
          assert w1 == still + (rest + s.queue);
        } else {
          assert w1 == w;
        }
      }
    case PutBack =>
      assert t != s ==> w1 == w;
  }

  function Run(s: State, steps: seq<Step>): State
    decreases |steps|
  {
    if steps == [] then s else Run(Next(s, steps[0]), steps[1..])
  }

  lemma {:induction false} InvForever(s: State, steps: seq<Step>)
    requires Inv(s)
    ensures Inv(Run(s, steps))
    decreases |steps|
  {
    if steps != [] {
      hide Inv, Next;
      StepInv(s, steps[0]);
      InvForever(Next(s, steps[0]), steps[1..]);
    }
  }

  predicate InRange(entries: seq<nat>, n: nat) { forall i :: 0 <= i < |entries| ==> entries[i] < n }

  /** The events behind queue entries. */
  function Events(entries: seq<nat>, appended: seq<nat>): (r: seq<nat>)
    requires InRange(entries, |appended|)
    ensures |r| == |entries| && forall i :: 0 <= i < |r| ==> r[i] == appended[entries[i]]
  {
    seq(|entries|, i requires 0 <= i < |entries| => appended[entries[i]])
  }

  lemma EntriesInRange(s: State)
    requires Inv(s)
    ensures InRange(Waiting(s), |s.appended|) && InRange(s.delivered, |s.appended|)
  {
    hide Waiting;
    assert forall i :: 0 <= i < |Waiting(s)| ==> Waiting(s)[i] in Waiting(s);
    assert forall i :: 0 <= i < |s.delivered| ==> s.delivered[i] in s.delivered;
  }

  /** Whatever the interleaving, from an empty queue: every event whose forward failed is in
      exactly one of three places, held by its forwarder, waiting, or delivered by a retry,
      and there once; the waiting ones are in the order in which they were appended. */
  lemma NothingLost(steps: seq<Step>)
    ensures var s := Run(INITIAL, steps);
      && InRange(Waiting(s), |s.appended|) && InRange(s.delivered, |s.appended|)
      && Increasing(Waiting(s))
      && var waiting, delivered := Events(Waiting(s), s.appended), Events(s.delivered, s.appended);
      && NoRepeats(waiting) && NoRepeats(delivered)
      && forall e: nat ::
           && (e < s.failures <==> e in s.held || e in waiting || e in delivered)
           && !(e in s.held && e in waiting) && !(e in s.held && e in delivered) && !(e in waiting && e in delivered)
  {
    InvForever(INITIAL, steps);
    var s := Run(INITIAL, steps);
    EntriesInRange(s);
    InPlaces(s);
  }

  lemma InPlaces(s: State)
    requires Inv(s) && InRange(Waiting(s), |s.appended|) && InRange(s.delivered, |s.appended|)
    ensures var waiting, delivered := Events(Waiting(s), s.appended), Events(s.delivered, s.appended);
      && NoRepeats(waiting) && NoRepeats(delivered)
      && forall e: nat ::
           && (e < s.failures <==> e in s.held || e in waiting || e in delivered)
           && !(e in s.held && e in waiting) && !(e in s.held && e in delivered) && !(e in waiting && e in delivered)
  {
    hide Waiting;
    forall e: nat { OnePlace(s.appended, Waiting(s), s.delivered, e); }
    EventsNoRepeats(Waiting(s), s.appended);
    EventsNoRepeats(s.delivered, s.appended);
  }

  lemma EventsNoRepeats(entries: seq<nat>, appended: seq<nat>)
    requires InRange(entries, |appended|) && NoRepeats(appended) && (NoRepeats(entries) || Increasing(entries))
    ensures NoRepeats(Events(entries, appended))
  {
    var r := Events(entries, appended);
    forall i, j | 0 <= i < j < |r| ensures r[i] != r[j] {
      assert entries[i] != entries[j];
      assert entries[i] < entries[j] || entries[j] < entries[i];
    }
  }

  lemma OnePlace(appended: seq<nat>, w: seq<nat>, d: seq<nat>, e: nat)
    requires Accounted(|appended|, w, d) && NoRepeats(appended) && InRange(w, |appended|) && InRange(d, |appended|)
    ensures e in appended <==> e in Events(w, appended) || e in Events(d, appended)
    ensures !(e in Events(w, appended) && e in Events(d, appended))
  {
    var waiting, delivered := Events(w, appended), Events(d, appended);
    hide Events, Increasing;
    if e in appended {
      var n :| 0 <= n < |appended| && appended[n] == e;
      if n in w {
        var i :| 0 <= i < |w| && w[i] == n;
        assert waiting[i] == e;
      } else {
        var i :| 0 <= i < |d| && d[i] == n;
        assert delivered[i] == e;
      }
      assert forall i :: 0 <= i < |w| && waiting[i] == e ==> w[i] == n && n in w;
      assert forall i :: 0 <= i < |d| && delivered[i] == e ==> d[i] == n && n in d;
    }
  }

  /** When the retry order is also failure order: if it is so far, one more append keeps it
      exactly when the appended event failed after all the waiting ones. */
  lemma AppendInFailureOrderExactly(s: State, e: nat)
    requires Inv(s) && e in s.held
    requires InRange(Waiting(s), |s.appended|) && Increasing(Events(Waiting(s), s.appended))
    ensures var t := Next(s, Append(e));
      InRange(Waiting(t), |t.appended|)
      && (Increasing(Events(Waiting(t), t.appended)) <==> forall f <- Events(Waiting(s), s.appended) :: f < e)
  {
    var t, n := Next(s, Append(e)), |s.appended|;
    var w, w1 := Waiting(s), Waiting(t);
    assert w1 == w + [n];
    var before := Events(w, s.appended);
    assert forall i :: 0 <= i < |w| ==> w[i] in w;
    var after := Events(w1, t.appended);
    assert after == before + [e];
    hide Events, Waiting;
    assert forall i :: 0 <= i < |before| ==> before[i] in before && after[i] == before[i];
    if Increasing(after) {
      assert forall i :: 0 <= i < |before| ==> after[i] < after[|before|];
    }
  }

  /** It can be lost: two forwards fail, and the second reaches the lock first. */
  lemma LaterFailureMayBeRetriedFirst()
    ensures var s := Run(INITIAL, [ForwardFails, ForwardFails, Append(1), Append(0)]);
      Waiting(s) == [0, 1] && s.appended == [1, 0]
  {
    var a, b, c, d := ForwardFails, ForwardFails, Append(1), Append(0);
    var s1, s2 := Next(INITIAL, a), Next(Next(INITIAL, a), b);
    assert s2.held == {0, 1} && Next(s2, c).held == {0};
    assert [a, b, c, d][1..] == [b, c, d] && [b, c, d][1..] == [c, d] && [c, d][1..] == [d] && [d][1..] == [];
    var s3 := Next(s2, c);
    assert Run(s3, [d]) == Next(s3, d);
  }

  /** The results of the attempts among the steps. */
  function Results(steps: seq<Step>): seq<bool> {
    if steps == [] then []
    else
      var last := |steps| - 1;
      if steps[last].Try? then Results(steps[..last]) + [steps[last].posted] else Results(steps[..last])
  }

  /** The numbers from a below b. */
  function Range(a: nat, b: nat): (r: seq<nat>)
    requires a <= b
    ensures |r| == b - a && forall i :: 0 <= i < |r| ==> r[i] == a + i
  {
    if a == b then [] else Range(a, b - 1) + [b - 1]
  }

  lemma {:induction false} RunSplits(s: State, steps: seq<Step>)
    requires steps != []
    ensures Run(s, steps) == Next(Run(s, steps[..|steps| - 1]), steps[|steps| - 1])
    decreases |steps|
  {
    if |steps| > 1 {
      var last := |steps| - 1;
      RunSplits(Next(s, steps[0]), steps[1..]);
      assert steps[1..][..last - 1] == steps[..last][1..];
    }
  }

  /** During a flush that took the queue of s: what failed so far, what is untried, and what
      arrived since. */
  ghost predicate InFlush(s: State, t: State, ok: seq<bool>)
    requires |ok| <= |s.queue|
  {
    && s.appended <= t.appended
    && t.flush == Flying(Kept(s.queue[..|ok|], ok), s.queue[|ok|..])
    && t.queue == Range(|s.appended|, |t.appended|)
    && t.delivered == s.delivered + Sent(s.queue[..|ok|], ok)
  }

  lemma ArrivalInFlush(s: State, t: State, ok: seq<bool>, step: Step)
    requires |ok| <= |s.queue| && InFlush(s, t, ok) && (step.ForwardFails? || step.Append?)
    ensures InFlush(s, Next(t, step), ok)
  {
    hide Kept, Sent;
  }

  lemma TryInFlush(s: State, t: State, ok: seq<bool>, posted: bool)
    requires |ok| < |s.queue| && InFlush(s, t, ok)
    ensures InFlush(s, Next(t, Try(posted)), ok + [posted])
  {
    hide Range, Kept, Sent;
    OneTry(s.queue, ok, posted);
    var kept, sent := Kept(s.queue[..|ok|], ok), Sent(s.queue[..|ok|], ok);
    assert kept + [] == kept && sent + [] == sent;
    assert posted ==> s.delivered + sent + [s.queue[|ok|]] == s.delivered + (sent + [s.queue[|ok|]]);
  }

  lemma {:induction false} MidFlush(s: State, steps: seq<Step>)
    requires s.flush.Idle? && s.queue != []
    requires |Results(steps)| <= |s.queue| && forall step <- steps :: step.ForwardFails? || step.Append? || step.Try?
    ensures InFlush(s, Run(Next(s, Take), steps), Results(steps))
    decreases |steps|
  {
    if steps != [] {
      hide InFlush, Next, Run;
      var last := |steps| - 1;
      assert steps[last] in steps && forall step <- steps[..last] :: step in steps;
      MidFlush(s, steps[..last]);
      RunSplits(Next(s, Take), steps);
      var t, ok := Run(Next(s, Take), steps[..last]), Results(steps[..last]);
      if steps[last].Try? {
        TryInFlush(s, t, ok, steps[last].posted);
      } else {
        ArrivalInFlush(s, t, ok, steps[last]);
      }
    }
  }

  /** One more attempt, on the first untried entry. */
  lemma OneTry(queue: seq<nat>, ok: seq<bool>, posted: bool)
    requires |ok| < |queue|
    ensures var n, more := |ok|, ok + [posted];
      && queue[n..] != [] && queue[n..][0] == queue[n] && queue[n..][1..] == queue[n + 1..]
      && Kept(queue[..n + 1], more) == Kept(queue[..n], ok) + (if posted then [] else [queue[n]])
      && Sent(queue[..n + 1], more) == Sent(queue[..n], ok) + (if posted then [queue[n]] else [])
  {
    var n, more := |ok|, ok + [posted];
    assert queue[..n + 1][..n] == queue[..n] && more[..n] == ok;
    KeptSnoc(queue[..n + 1], more);
    SentSnoc(queue[..n + 1], more);
    hide Kept, Sent;
  }

  lemma KeptSnoc<E>(events: seq<E>, ok: seq<bool>)
    requires |events| == |ok| > 0
    ensures var last := |ok| - 1;
            Kept(events, ok) == Kept(events[..last], ok[..last]) + (if ok[last] then [] else [events[last]])
  {
  }

  lemma SentSnoc<E>(events: seq<E>, ok: seq<bool>)
    requires |events| == |ok| > 0
    ensures var last := |ok| - 1;
            Sent(events, ok) == Sent(events[..last], ok[..last]) + (if ok[last] then [events[last]] else [])
  {
    var last := |ok| - 1;
    var not := seq(|ok|, i requires 0 <= i < |ok| => !ok[i]);
    var not0 := seq(|ok[..last]|, i requires 0 <= i < |ok[..last]| => !ok[..last][i]);
    assert not[..last] == not0;
  }

  /** A whole flush, however forwards interleave with it: the queue becomes the events that
      failed again, in order, then those that arrived meanwhile; the rest were delivered. */
  lemma WholeFlush(s: State, steps: seq<Step>)
    requires s.flush.Idle? && s.queue != []
    requires |Results(steps)| == |s.queue| && forall step <- steps :: step.ForwardFails? || step.Append? || step.Try?
    ensures var t, ok := Next(Run(Next(s, Take), steps), PutBack), Results(steps);
            && t.flush.Idle? && s.appended <= t.appended
            && t.queue == Kept(s.queue, ok) + Range(|s.appended|, |t.appended|)
            && t.delivered == s.delivered + Sent(s.queue, ok)
  {
    MidFlush(s, steps);
    assert s.queue[..|s.queue|] == s.queue;
  }
}
